/** The fixed-step integration loop and the four parallel series it
    records. `Simulated` says, sample by sample, what a correct recording
    is; `Simulate` is the loop itself. */
module Simulation {
  import opened Parameters
  import opened Phase
  import opened Dynamics

  /** The four recorded series: time, height, velocity and acceleration. */
  datatype Trajectory = Trajectory(ts: seq<real>, hs: seq<real>, vs: seq<real>, accs: seq<real>)
  {
    /** The four series have the same length, so index i names one instant. */
    predicate Aligned()
    {
      |hs| == |ts| && |vs| == |ts| && |accs| == |ts|
    }

    function At(i: nat): Sample
      requires Aligned() && i < |ts|
    {
      Sample(ts[i], hs[i], vs[i], accs[i])
    }
  }

  /** What the loop carries from one iteration to the next: the time and
      the height and velocity reached so far. */
  datatype State = State(t: real, h: real, v: real)

  /** At rest on the pad at ignition. */
  const Launch: State := State(0.0, 0.0, 0.0)

  /** The state the loop carries into iteration i of a recording: rest at
      launch for the first iteration, otherwise the clock one step past
      the previous sample, with that sample's height and velocity. */
  function CarriedInto(p: Params, tr: Trajectory, i: nat): State
    requires tr.Aligned() && i <= |tr.ts|
  {
    if i == 0 then Launch
    else State(tr.ts[i - 1] + p.dt, tr.hs[i - 1], tr.vs[i - 1])
  }

  /** A correct recording for `p`: one sample per loop iteration, the
      iterations being those whose time does not exceed the horizon, and
      sample i being the step taken from the state carried into it. */
  ghost predicate Simulated(p: Params, tr: Trajectory)
    requires p.Valid()
  {
    && Consistent(p, tr)
    && |tr.ts| == SampleCount(p)
  }

  /** Every sample so far is the step from the state carried into it. */
  ghost predicate Consistent(p: Params, tr: Trajectory)
    requires p.Valid()
  {
    && tr.Aligned()
    && forall i :: 0 <= i < |tr.ts| ==>
         var st := CarriedInto(p, tr, i);
         tr.At(i) == Step(p, st.t, st.h, st.v)
  }

  /** The integration loop: from rest at t = 0, step while t <= horizon,
      appending (t, h, v, a) to the four series after each step. */
  method Simulate(p: Params) returns (tr: Trajectory)
    requires p.Valid()
    ensures Simulated(p, tr)
  {
    var t, h, v, a := 0.0, 0.0, 0.0, 0.0;
    var ts, hs, vs, accs := [], [], [], [];
    ghost var n := SampleCount(p);
    while t <= p.horizon
      invariant |ts| <= n
      invariant Consistent(p, Trajectory(ts, hs, vs, accs))
      invariant t == |ts| as real * p.dt
      invariant State(t, h, v) == CarriedInto(p, Trajectory(ts, hs, vs, accs), |ts|)
      decreases n - |ts|
    {
      WithinHorizon(p, |ts|);
      NextMultiple(|ts|, p.dt);
      ghost var before := Trajectory(ts, hs, vs, accs);
      var s := Step(p, t, h, v);
      h, v, a := s.h, s.v, s.a;
      ts, hs, vs, accs := ts + [t], hs + [h], vs + [v], accs + [a];
      t := t + p.dt;
      Extend(p, before, s);
    }
    WithinHorizon(p, |ts|);
    tr := Trajectory(ts, hs, vs, accs);
  }

  /** Appending the step from the carried state keeps a recording
      consistent, and carries the new sample's values forward. */
  lemma Extend(p: Params, tr: Trajectory, s: Sample)
    requires p.Valid() && Consistent(p, tr)
    requires var st := CarriedInto(p, tr, |tr.ts|); s == Step(p, st.t, st.h, st.v)
    ensures var tr' := Trajectory(tr.ts + [s.t], tr.hs + [s.h], tr.vs + [s.v], tr.accs + [s.a]);
            && Consistent(p, tr')
            && CarriedInto(p, tr', |tr'.ts|) == State(s.t + p.dt, s.h, s.v)
  {
    var tr' := Trajectory(tr.ts + [s.t], tr.hs + [s.h], tr.vs + [s.v], tr.accs + [s.a]);
    forall i | 0 <= i < |tr'.ts|
      ensures var st := CarriedInto(p, tr', i); tr'.At(i) == Step(p, st.t, st.h, st.v)
    {
      if i < |tr.ts| {
        assert tr'.At(i) == tr.At(i);
      }
      assert CarriedInto(p, tr', i) == CarriedInto(p, tr, i);
    }
  }

  /** The number of loop iterations: the times 0, dt, 2*dt, ... that do not
      exceed the horizon. The first time left out is past the horizon. */
  function SampleCount(p: Params): (n: nat)
    requires p.Valid()
    ensures n as real * p.dt > p.horizon
    ensures n > 0 ==> (n - 1) as real * p.dt <= p.horizon
  {
    var q := (p.horizon / p.dt).Floor + 1;
    FloorCount(p.horizon, p.dt);
    if q <= 0 then 0 else q
  }

  /** With the program's constants (a 6 s horizon, 0.05 s steps) the exact
      run records 121 samples, t = 0.00 to 6.00. */
  lemma DefaultSampleCount()
    ensures SampleCount(Default()) == 121
  {
    var p := Default();
    assert p.horizon / p.dt == 120.0;
  }

  /** Floor(h/d) + 1 is the least integer q with q*d > h. */
  lemma FloorCount(h: real, d: real)
    requires d > 0.0
    ensures var q := (h / d).Floor + 1;
            && q as real * d > h
            && (q - 1) as real * d <= h
            && (q <= 0 ==> 0.0 > h)
  {
    var x := h / d;
    var q := x.Floor + 1;
    assert x * d == h;
    assert (q - 1) as real <= x < q as real;
    ScaleStrict(x, q as real, d);
    ScaleMonotone((q - 1) as real, x, d);
    if q <= 0 {
      ScaleMonotone(q as real, 0.0, d);
    }
  }

  lemma NextMultiple(k: nat, d: real)
    ensures (k + 1) as real * d == k as real * d + d
  {
  }

  lemma ScaleMonotone(x: real, y: real, d: real)
    requires x <= y && d > 0.0
    ensures x * d <= y * d
  {
    assert y * d - x * d == (y - x) * d;
  }

  lemma ScaleStrict(x: real, y: real, d: real)
    requires x < y && d > 0.0
    ensures x * d < y * d
  {
    assert y * d - x * d == (y - x) * d;
  }

  /** The time k*dt lies within the horizon exactly when k is below the
      sample count. */
  lemma WithinHorizon(p: Params, k: nat)
    requires p.Valid()
    ensures k < SampleCount(p) <==> k as real * p.dt <= p.horizon
  {
    var n := SampleCount(p);
    assert n as real * p.dt > p.horizon;
    if k < n {
      assert (n - 1) as real * p.dt <= p.horizon;
      ScaleMonotone(k as real, (n - 1) as real, p.dt);
    } else {
      ScaleMonotone(n as real, k as real, p.dt);
    }
  }

  /** Sample i of a recording is the step from the state carried into it. */
  lemma SampleStep(p: Params, tr: Trajectory, i: nat)
    requires p.Valid() && Consistent(p, tr) && i < |tr.ts|
    ensures var st := CarriedInto(p, tr, i);
            tr.At(i) == Step(p, st.t, st.h, st.v)
  {
  }

  /** The stored values are the post-step values of each iteration: the
      time is the iteration's start time (0, then one step after the
      previous sample), the velocity has been advanced by a*dt from the
      carried velocity and the height by the NEW velocity times dt. */
  lemma Recurrence(p: Params, tr: Trajectory, i: nat)
    requires p.Valid() && Consistent(p, tr) && i < |tr.ts|
    ensures i == 0 ==> tr.ts[0] == 0.0 && tr.vs[0] == tr.accs[0] * p.dt && tr.hs[0] == tr.vs[0] * p.dt
    ensures i > 0 ==> tr.ts[i] == tr.ts[i - 1] + p.dt
    ensures i > 0 ==> tr.vs[i] == tr.vs[i - 1] + tr.accs[i] * p.dt
    ensures i > 0 ==> tr.hs[i] == tr.hs[i - 1] + tr.vs[i] * p.dt
  {
    SampleStep(p, tr, i);
  }

  /** The time series is 0, dt, 2*dt, ... exactly (over the reals). */
  lemma {:induction false} TimeIsIndexTimesStep(p: Params, tr: Trajectory, i: nat)
    requires p.Valid() && Consistent(p, tr) && i < |tr.ts|
    ensures tr.ts[i] == i as real * p.dt
  {
    Recurrence(p, tr, i);
    if i > 0 {
      TimeIsIndexTimesStep(p, tr, i - 1);
      assert i as real * p.dt == (i - 1) as real * p.dt + p.dt;
    }
  }

  /** Every recorded time is within the horizon, and the time of the
      iteration after the last is past it: the loop stops as soon as
      t > horizon. */
  lemma TimesWithinHorizon(p: Params, tr: Trajectory)
    requires p.Valid() && Simulated(p, tr)
    ensures forall i :: 0 <= i < |tr.ts| ==> tr.ts[i] <= p.horizon
    ensures |tr.ts| as real * p.dt > p.horizon
  {
    forall i | 0 <= i < |tr.ts|
      ensures tr.ts[i] <= p.horizon
    {
      TimeIsIndexTimesStep(p, tr, i);
      WithinHorizon(p, i);
    }
  }

  /** The run is deterministic: a parameter set has exactly one correct
      recording. */
  lemma Deterministic(p: Params, tr1: Trajectory, tr2: Trajectory)
    requires p.Valid() && Simulated(p, tr1) && Simulated(p, tr2)
    ensures tr1 == tr2
  {
    forall i | 0 <= i < |tr1.ts|
      ensures tr1.At(i) == tr2.At(i)
    {
      SamePrefix(p, tr1, tr2, i);
    }
    assert tr1.ts == tr2.ts && tr1.hs == tr2.hs && tr1.vs == tr2.vs && tr1.accs == tr2.accs by {
      forall i | 0 <= i < |tr1.ts|
        ensures tr1.ts[i] == tr2.ts[i] && tr1.hs[i] == tr2.hs[i]
        ensures tr1.vs[i] == tr2.vs[i] && tr1.accs[i] == tr2.accs[i]
      {
        assert tr1.At(i) == tr2.At(i);
      }
    }
  }

  lemma {:induction false} SamePrefix(p: Params, tr1: Trajectory, tr2: Trajectory, i: nat)
    requires p.Valid() && Consistent(p, tr1) && Consistent(p, tr2)
    requires i < |tr1.ts| && i < |tr2.ts|
    ensures tr1.At(i) == tr2.At(i)
  {
    SampleStep(p, tr1, i);
    SampleStep(p, tr2, i);
    if i > 0 {
      SamePrefix(p, tr1, tr2, i - 1);
      assert CarriedInto(p, tr1, i) == CarriedInto(p, tr2, i);
    }
  }

  /** The first step starts from rest: thrust and gravity only, no drag. */
  lemma FirstSample(p: Params, tr: Trajectory)
    requires p.Valid() && Consistent(p, tr) && |tr.ts| > 0
    ensures p.massBeforeBurn * tr.accs[0] == p.averageThrust - p.massBeforeBurn * p.g
    ensures tr.vs[0] == tr.accs[0] * p.dt
    ensures tr.hs[0] == tr.vs[0] * p.dt
  {
    SampleStep(p, tr, 0);
    MassProfile(p, 0.0);
    assert Drag(p, 0.0) == 0.0;
  }

  /** When the thrust does not exceed the lift-off weight, the first step
      does not leave the pad upwards. */
  lemma LiftoffThreshold(p: Params, tr: Trajectory)
    requires p.Valid() && Consistent(p, tr) && |tr.ts| > 0
    requires p.averageThrust <= p.massBeforeBurn * p.g
    ensures tr.accs[0] <= 0.0
    ensures tr.vs[0] <= 0.0
  {
    FirstSample(p, tr);
    assert p.massBeforeBurn * tr.accs[0] <= 0.0;
  }
}
