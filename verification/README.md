# Fixed-step ODE driver loop

A Dafny model of the fixed-step driver of the `solver` namespace of an ODE
integration library: `integrate_one_step` and `integrate_const` in
`include/solver/solver.hpp`.

`integrate_one_step` asks the stepper to advance the state by one increment.
It then calls the observer, and only after that adds the increment to the time.
`integrate_const` calls the observer once with the initial state and start
time. It then repeats `integrate_one_step` while the time is below the end
time and returns the number of iterations.

How the model represents each part:

- The stepper and the user's system are folded into one caller-supplied
  function `step(state, t, dt)` over a generic state type `S`.
- The observer is the sequence of `Observed(state, time)` calls it receives,
  in order. `IntegrateConst` returns that sequence next to the iteration
  count and the final state.
- Time is an exact `real`.
- The iteration counter is a C++ `unsigned`. The model counts modulo 2^32,
  as that type does where `unsigned` is 32 bits wide.

There are two modules:

- `Schedule` (`schedule.dfy`) states the reference behaviour without any loop:
  - `TimeAt(t0, dt, i) = t0 + i*dt`;
  - `StepsTaken`, the least `n` with `t1 <= t0 + n*dt`;
  - `Iterate`, the n-fold composition of `step`, whose i-th application happens
    at time `TimeAt(t0, dt, i)`.
- `Solver` (`solver.dfy`) models the two driver functions. It proves them equal
  to that reference schedule.

A quirk is reproduced as written. The observer is called after the state update
but before `time += time_delta`, so it sees the new state with the old time.
As a result, the first two observer calls of a run both carry the start time,
and the final advanced time is never reported.

## Model

| member | source | states |
|---|---|---|
| Solver.IntegrateOneStep | include/solver/solver.hpp:23-25 | the state becomes `step(old state, old time, dt)` and the time grows by exactly `dt`; the observer is called exactly once, after the state update, with the new state and the pre-advance time; earlier observer calls are untouched |
| Solver.ScheduleStep | include/solver/solver.hpp:23-25 | one `integrate_one_step` from the configuration the reference schedule predicts after `k` steps gives the configuration it predicts after `k + 1` steps (state, time and observer calls) |
| Solver.LoopFollowsSchedule | include/solver/solver.hpp:39-42 | after the initial observer call, `k` iterations of the loop body reach state `Iterate(k)` and time `t0 + k*dt`; the observer has by then seen the reference trace of `k` steps |
| Solver.NoProgressNeverEnds | include/solver/solver.hpp:40-42 | with `time_delta <= 0` and `start_time < end_time`, the loop test still holds after any number of iterations, so `integrate_const` does not return |
| Solver.IntegrateConst | include/solver/solver.hpp:28-45 | returns the least `n` with `end_time <= start_time + n*dt`, taken modulo 2^32; the final state is `step` composed `n` times; the observer calls equal the reference trace (`n + 1` of them, the first with the unmodified initial state and `start_time`, the second at `start_time` too, every call inside the loop at a time below `end_time`); when `start_time >= end_time` it returns 0, leaves the state unchanged and calls the observer once |
| Solver.ObservedRun | include/solver/solver.hpp:39-42 | a run of `StepsTaken` steps makes `StepsTaken + 1` observer calls; the first is `(x, t0)` and the second is `(step(x, t0, dt), t0)`; every later call carries a time below the end time; there is a single call when the start is not below the end |
| Solver.ObservedTimesOrdered | include/solver/solver.hpp:24-25 | with a positive step the observed times never decrease, they increase strictly from the second call on, and two calls share a time exactly when they are the first two |
| Schedule.StepsTaken | include/solver/solver.hpp:40-42 | the iteration count reaches the end time (`t1 <= t0 + n*dt`) and every earlier count falls short of it, i.e. it is the least such count |
| Schedule.StepsTakenUnique | include/solver/solver.hpp:40-42 | any count with those two properties is `StepsTaken` |
| Schedule.OvershootBelowOneStep | include/solver/solver.hpp:40-42 | the final step is not clamped, so the loop stops at a time in `[end_time, end_time + dt)` |
| Schedule.AlignedEnd | include/solver/solver.hpp:40-42 | when the end time is exactly `t0 + m*dt`, the loop takes exactly `m` steps |
| Schedule.TimeAtIncreasing | include/solver/solver.hpp:25 | with a positive increment, time after `i` steps is strictly below time after `j > i` steps |
| Schedule.IterateSplit | include/solver/solver.hpp:23 | `m + n` steps equal `m` steps followed by `n` steps started at time `t0 + m*dt` |
| Schedule.SplitInterval | include/solver/solver.hpp:38-44 | integrating to a grid point `t1` and then on to `t2` takes as many steps as integrating to `t2` directly, and ends in the same state |

## Left out

- The stepper formulas (Euler, RK4), the vector algebra and the system. Their
  headers `it_algebra.hpp`, `stepper_euler.hpp` and `stepper_rk4.hpp` are not
  part of this model. `do_step` is the abstract parameter `step`.
- The adaptive step-doubling controller and the `integrate_fixed` and
  `integrate_adaptive` drivers of the `numint` namespace. Their header is not
  part of this model.
- The example programs: the user derivative functions (pendulum, robot arm,
  spring-mass-damper), timing, printing, plotting and recording observers.
  These are external collaborators. Observer decimation is not modelled; the
  trace records every call the driver makes.
- IEEE-754 rounding of `time += time_delta`. Time is an exact real, and the
  termination of the loop and the count `StepsTaken` are proved only for
  exact reals. With doubles, rounding can change the iteration count by many
  steps, not just one. When `time_delta` is below half an ulp of `time`, the
  addition leaves `time` unchanged. The loop then never terminates even
  though `time_delta > 0`. An example is `start_time = 1e17`,
  `time_delta = 1.0`, `end_time = 1e17 + 16`.
- Templates, `constexpr` and `noexcept`. Only the generic state type remains.
- Solver.IntegrateConst: requires `time_delta > 0` whenever
  `start_time < end_time`, because with `time_delta <= 0` the source then never
  returns.
  The non-terminating case is stated by Solver.NoProgressNeverEnds instead.
