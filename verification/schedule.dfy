/**
 The reference schedule of a fixed-step integration, stated without any loop:
 the time reached after i steps, the number of steps needed to reach an end
 time, and the state obtained by composing the step function n times.
 Time is an exact real; the stepper and the system are folded into one
 function `step(state, t, dt)` supplied by the caller.
 */
module Schedule {

  /** The time reached after `i` steps of size `dt` taken from `t0`. */
  function TimeAt(t0: real, dt: real, i: nat): real
  {
    t0 + i as real * dt
  }

  /** The least integer not below `q`. */
  function Ceil(q: real): (c: int)
    ensures q <= c as real < q + 1.0
  {
    if q.Floor as real == q then q.Floor else q.Floor + 1
  }

  /**
   The number of steps a fixed-step driver takes to go from `t0` past `t1`:
   the least `n` with `t1 <= t0 + n*dt`. When `t0 < t1` this needs a
   positive `dt`; with `dt <= 0` no such `n` exists.
   */
  function StepsTaken(t0: real, t1: real, dt: real): (n: nat)
    requires t1 <= t0 || dt > 0.0
    ensures t1 <= TimeAt(t0, dt, n)
    ensures forall k: nat :: k < n ==> TimeAt(t0, dt, k) < t1
  {
    if t1 <= t0 then 0
    else
      CeilReachesEnd(t0, t1, dt);
      Ceil((t1 - t0) / dt)
  }

  /** For `t0 < t1`, the ceiling of `(t1 - t0) / dt` steps is the least count reaching `t1`. */
  lemma CeilReachesEnd(t0: real, t1: real, dt: real)
    requires dt > 0.0 && t0 < t1
    ensures Ceil((t1 - t0) / dt) >= 1
    ensures t1 <= TimeAt(t0, dt, Ceil((t1 - t0) / dt))
    ensures forall k: nat :: k < Ceil((t1 - t0) / dt) ==> TimeAt(t0, dt, k) < t1
  {
    var q := (t1 - t0) / dt;
    var n := Ceil(q);
    AboveQuotient(n as real, t1 - t0, dt);
    assert TimeAt(t0, dt, n) == t0 + n as real * dt;
    forall k: nat | k < n
      ensures TimeAt(t0, dt, k) < t1
    {
      BelowQuotient(k as real, t1 - t0, dt);
      assert TimeAt(t0, dt, k) == t0 + k as real * dt;
    }
  }

  /** A multiple of `dt` at or above `b / dt` steps covers `b`. */
  lemma AboveQuotient(a: real, b: real, dt: real)
    requires dt > 0.0 && b / dt <= a
    ensures b <= a * dt
  {
    var q := b / dt;
    assert q * dt == b;
    assert a * dt - q * dt == (a - q) * dt;
  }

  /** A multiple of `dt` below `b / dt` steps falls short of `b`. */
  lemma BelowQuotient(a: real, b: real, dt: real)
    requires dt > 0.0 && a < b / dt
    ensures a * dt < b
  {
    var q := b / dt;
    assert q * dt == b;
    assert q * dt - a * dt == (q - a) * dt;
  }

  /** Scaling by a positive `dt` keeps a strict order. */
  lemma MulStrictMonotone(a: real, b: real, dt: real)
    requires a < b && dt > 0.0
    ensures a * dt < b * dt
  {
    assert b * dt - a * dt == (b - a) * dt;
  }

  /** With a positive step, the schedule's times strictly increase. */
  lemma TimeAtIncreasing(t0: real, dt: real, i: nat, j: nat)
    requires dt > 0.0 && i < j
    ensures TimeAt(t0, dt, i) < TimeAt(t0, dt, j)
  {
    MulStrictMonotone(i as real, j as real, dt);
  }

  /** `StepsTaken` is the only count with its two defining properties. */
  lemma StepsTakenUnique(t0: real, t1: real, dt: real, n: nat)
    requires t1 <= t0 || dt > 0.0
    requires t1 <= TimeAt(t0, dt, n)
    requires forall k: nat :: k < n ==> TimeAt(t0, dt, k) < t1
    ensures n == StepsTaken(t0, t1, dt)
  {
  }

  /**
   The last step is not clamped: the driver stops at a time in
   `[t1, t1 + dt)`, overshooting `t1` by less than one step.
   */
  lemma {:induction false} OvershootBelowOneStep(t0: real, t1: real, dt: real)
    requires dt > 0.0 && t0 < t1
    ensures t1 <= TimeAt(t0, dt, StepsTaken(t0, t1, dt)) < t1 + dt
  {
    var n := StepsTaken(t0, t1, dt);
    assert n > 0;
    assert TimeAt(t0, dt, n - 1) < t1;
    assert TimeAt(t0, dt, n) == TimeAt(t0, dt, n - 1) + dt;
  }

  /** When the end time lies exactly on the grid, no overshoot happens. */
  lemma AlignedEnd(t0: real, dt: real, m: nat)
    requires dt > 0.0
    ensures StepsTaken(t0, TimeAt(t0, dt, m), dt) == m
  {
    forall k: nat | k < m
      ensures TimeAt(t0, dt, k) < TimeAt(t0, dt, m)
    {
      TimeAtIncreasing(t0, dt, k, m);
    }
    StepsTakenUnique(t0, TimeAt(t0, dt, m), dt, m);
  }

  /**
   The state after `n` steps: `step` applied `n` times in sequence, the
   i-th application (counting from 0) at time `TimeAt(t0, dt, i)`.
   */
  function Iterate<S>(step: (S, real, real) -> S, x: S, t0: real, dt: real, n: nat): S
  {
    if n == 0 then x
    else step(Iterate(step, x, t0, dt, n - 1), TimeAt(t0, dt, n - 1), dt)
  }

  /** Taking `m + n` steps is taking `m` steps and then `n` more from where they ended. */
  lemma {:induction false} IterateSplit<S>(step: (S, real, real) -> S, x: S, t0: real, dt: real, m: nat, n: nat)
    ensures Iterate(step, x, t0, dt, m + n)
         == Iterate(step, Iterate(step, x, t0, dt, m), TimeAt(t0, dt, m), dt, n)
  {
    if n > 0 {
      IterateSplit(step, x, t0, dt, m, n - 1);
      assert TimeAt(t0, dt, m + n - 1) == TimeAt(TimeAt(t0, dt, m), dt, n - 1);
    }
  }

  /**
   Integrating from `t0` to a grid point `t1` and then from `t1` to `t2`
   takes as many steps, and reaches the same state, as integrating from `t0`
   to `t2` directly.
   */
  lemma SplitInterval<S>(step: (S, real, real) -> S, x: S, t0: real, t2: real, dt: real, m: nat)
    requires dt > 0.0 && TimeAt(t0, dt, m) <= t2
    ensures var t1 := TimeAt(t0, dt, m);
      && StepsTaken(t0, t2, dt) == StepsTaken(t0, t1, dt) + StepsTaken(t1, t2, dt)
      && Iterate(step, x, t0, dt, StepsTaken(t0, t2, dt))
         == Iterate(step, Iterate(step, x, t0, dt, StepsTaken(t0, t1, dt)), t1, dt, StepsTaken(t1, t2, dt))
  {
    var t1 := TimeAt(t0, dt, m);
    var s2 := StepsTaken(t1, t2, dt);
    AlignedEnd(t0, dt, m);
    assert TimeAt(t0, dt, m + s2) == TimeAt(t1, dt, s2);
    forall k: nat | k < m + s2
      ensures TimeAt(t0, dt, k) < t2
    {
      if k < m {
        TimeAtIncreasing(t0, dt, k, m);
      } else {
        assert TimeAt(t0, dt, k) == TimeAt(t1, dt, k - m);
      }
    }
    StepsTakenUnique(t0, t2, dt, m + s2);
    IterateSplit(step, x, t0, dt, m, s2);
  }
}
