# Rocket trajectory prediction — a Dafny model

This project models the trajectory simulator of `prediction.py`, a script
that predicts the vertical flight of a single-stage model rocket. The script
does three things:

- It integrates the flight with a fixed step of 0.05 s from ignition to a
  6 s horizon.
- It records four parallel series: time, height, velocity and acceleration.
- It derives a summary: maximum height, maximum velocity and maximum
  acceleration.

All quantities are mathematical `real`s. This is an idealisation: it leaves
out IEEE-754 rounding on purpose.

Modules, in the order the program runs:

- `Parameters`: the immutable parameter record `Params` with the program's
  constants (`Default`). It also holds the two empirical constants of the
  summary as named values: `EjectionDelay` (4 s) and `CoastCorrection` (2 m).
  `Params.Valid` states what the simulation relies on: positive gravity,
  area, drag coefficient and after-burn mass; a before-burn mass at least the
  after-burn mass; a positive burn time and step; and a non-negative average
  thrust.
- `Phase`: the force/phase law. During the burn (`t <= burnTime`) the mass is
  a two-point, clamped linear interpolation from the before-burn to the
  after-burn mass, written out as `Interp`, and the thrust is the average
  thrust. After the burn the mass is the after-burn mass and there is no
  thrust. No phase flag is kept; the phase is recomputed from `t` at every
  step.
- `Dynamics`: one integration step. Drag is `Cd*A*v*v` and is always
  subtracted, whatever the direction of motion; this drag-sign behaviour is
  kept exactly as written. The acceleration is `(Ft - Fd - m*g)/m`. The
  velocity is updated first, and the height is then updated with the new
  velocity (semi-implicit Euler).
- `Simulation`: the loop `Simulate`. `Consistent` and `Simulated` say, sample
  by sample, what a correct recording is: sample `i` is the step taken from
  the state the loop carries into iteration `i`. `SampleCount` gives the
  number of iterations.
- `Flight`: facts about a recording. The clock increases, the coasting
  vehicle keeps slowing, the height rises while the velocity is non-negative
  and falls while it is negative. Together these give the highest sample.
- `Search`: the three searches of the summary. `MaxOf` is Python's `max`.
  `NextNegative` is the generator `next(x for x in v if x < 0)`. `IndexOf` is
  `list.index`. `ApogeeIndex` composes the last two, as the program does.
- `Summary`: `Summarize`, with the ejection-delay rule for the maximum height.
  A recording in which the velocity never turns negative gives
  `Failure(NoApogeeDetected)`; the script itself raises `StopIteration` there.

The script runs `Simulate` followed by `Summarize`. `Deterministic` shows
that the recording is a function of the parameters.

## Model

| member | source | states |
|---|---|---|
| Parameters.Default | prediction.py:6-15 | the program's constants form a valid parameter set, and its 6 s horizon lies past burn end plus the ejection delay |
| Phase.Interp | prediction.py:35 | two-point interpolation equals the first value left of the first point and the last value right of the last point, and always lies between the two values |
| Phase.InterpOnSegment | prediction.py:35 | between the two points, the interpolated point lies on the straight line through them |
| Phase.InterpNonIncreasing | prediction.py:35 | with a falling target (second value <= first), the interpolant never increases |
| Phase.ForcesAt | prediction.py:34-39 | mass stays within [after-burn, before-burn]; during the burn the thrust is the average thrust; after it the mass is exactly the after-burn mass and the thrust is exactly 0, whatever t is |
| Phase.MassNonIncreasing | prediction.py:34-39 | mass never increases with time, across the end of the burn too |
| Phase.MassProfile | prediction.py:35 | mass is the before-burn mass at ignition and the after-burn mass at burn end; in between it lies on the line joining them |
| Dynamics.Drag | prediction.py:42 | the drag force is never negative |
| Dynamics.Step | prediction.py:42-49 | the step keeps the start time; Newton's law m*a = Ft - Cd*A*v^2 - m*g; v' - v = a*dt; h' - h = v'*dt, using the NEW velocity |
| Dynamics.AccelerationBound | prediction.py:42-47 | drag only slows the vehicle: a <= Ft/m - g |
| Dynamics.CoastDecelerates | prediction.py:37-48 | after the burn a <= -g, so each coasting step strictly lowers the velocity |
| Dynamics.SemiImplicitHeight | prediction.py:48-49 | the height moves by v*dt + a*dt^2, not by the explicit-Euler v*dt |
| Dynamics.DragIgnoresDirection | prediction.py:42 | climbing or falling at the same speed gives the same acceleration, because drag ignores the sign of v |
| Simulation.Simulate | prediction.py:27-58 | the loop's four lists have equal length; their number is the count of times within the horizon; entry i of each is the step from the state carried into iteration i |
| Simulation.SampleCount | prediction.py:33 | the iteration count n is the one with (n-1)*dt <= horizon < n*dt |
| Simulation.WithinHorizon | prediction.py:33 | iteration k runs (k*dt <= horizon) exactly when k is below the iteration count |
| Simulation.Recurrence | prediction.py:47-58 | the stored t is the pre-increment time, 0 first and then one step after the previous entry; the stored v and h are post-step values reached from the previous entry's values |
| Simulation.TimeIsIndexTimesStep | prediction.py:27-58 | entry i of the time list is exactly i*dt |
| Simulation.TimesWithinHorizon | prediction.py:33-58 | every recorded time is <= horizon, and the loop stops as soon as t > horizon |
| Simulation.Deterministic | prediction.py:27-58 | two recordings for the same parameters are identical |
| Simulation.FirstSample | prediction.py:27-49 | the first step starts from rest: m0*a = thrust - m0*g with no drag, v = a*dt, h = v*dt |
| Simulation.LiftoffThreshold | prediction.py:27-49 | if the thrust does not exceed the lift-off weight, the first recorded acceleration and velocity are not positive |
| Simulation.DefaultSampleCount | prediction.py:24-33 | with the program's constants the exact run records 121 samples |
| Flight.TimeIncreasing | prediction.py:52-58 | recorded times strictly increase |
| Flight.CoastVelocityFalls | prediction.py:37-48 | every sample recorded after the burn has a <= -g and a lower velocity than the sample before it |
| Flight.VelocityFallsAfterBurn | prediction.py:37-48 | from a post-burn sample on, the velocity never rises again |
| Flight.HeightRisesWhileClimbing | prediction.py:49 | while the recorded velocities stay non-negative, the height does not fall |
| Flight.HeightFallsWhileDescending | prediction.py:49 | while the recorded velocities stay negative, the height does not rise, and over a non-empty stretch it strictly drops |
| Flight.PeakBeforeFirstDescent | prediction.py:61-63 | if the first negative velocity comes after the burn, it is not the first sample, and the sample just before it holds the maximum height |
| Search.MaxOf | prediction.py:68-69 | the result is an element of the list that no element exceeds |
| Search.NextNegative | prediction.py:61 | none exactly when every velocity is >= 0; otherwise the value at the first negative index |
| Search.FirstNegativeUnique | prediction.py:61 | there is only one first negative index, so the apogee index is well defined |
| Search.IndexOf | prediction.py:61 | the result is the first position holding the value; none exactly when the value is absent |
| Search.IndexOfFirstNegative | prediction.py:61 | looking up the value at the first negative index returns that same index |
| Search.ApogeeIndex | prediction.py:61 | the index is the least one with v[k] < 0, all earlier velocities being >= 0; none exactly when no velocity is negative |
| Summary.Summarize | prediction.py:61-69 | fails exactly when no velocity is negative; at the first negative index k: if t[k] >= burn + 4, the max height is the maximum of all heights, otherwise it is h[k] + 2; max velocity and max acceleration are bound and attained over the whole lists |
| Summary.DescendingBranchPeak | prediction.py:61-63 | for a recording of the loop in the "already descending" branch, the reported maximum height is the height of the sample just before the first descending one |
| Summary.EjectionBoundaryTakesMax | prediction.py:62-63 | a first negative velocity exactly at burn + 4 s takes the maximum height (the comparison is inclusive) |
| Summary.NoDescentNoApogee | prediction.py:61 | a recording that never descends reports NoApogeeDetected |

## Left out

- Plotting (prediction.py:75-101) is left out. It only renders the three series.
- Console output with two-decimal formatting (prediction.py:71-73) is left out. It is I/O and float formatting.
- `launch_mass_during_burn` (prediction.py:11) is not a field of `Params`. The program declares it and never uses it.
- IEEE-754 rounding is left out. The script accumulates `t += 0.05` in floating point, so its iteration count and the `t <= 6.0` boundary can differ from the exact count of 121 by one sample. The concrete numbers the script prints for the default flight are not derived over the reals.
- `np.interp` is not called as a library function. Only its two-point, clamped behaviour is written out (`Phase.Interp`).
- Flight-wide numeric claims for the default constants are left out. Examples are "the maximum acceleration occurs during the burn" and "all three maxima are positive". They need nonlinear reasoning across many steps of concrete arithmetic.
- Summary.Summarize: in the no-descent case it returns `Failure(NoApogeeDetected)`. The script raises an unhandled `StopIteration` there instead.
- Summary.Summarize: it requires the four lists to have equal length. The script only ever passes the lists its own loop built, and `Simulation.Simulate` proves those lists are aligned.
- Parameter validation is left out. The script has none; its constants are fixed. `Params.Valid` is stated as a precondition, and `Parameters.Default` proves the program's constants meet it.
