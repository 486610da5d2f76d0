/** One integration step: the forces at the current time give the
    acceleration, the velocity is advanced first and the height is advanced
    with the NEW velocity (semi-implicit Euler). */
module Dynamics {
  import opened Parameters
  import opened Phase

  /** One recorded instant: the time the step started at, and the height,
      velocity and acceleration that step produced. */
  datatype Sample = Sample(t: real, h: real, v: real, a: real)

  /** Aerodynamic drag. It is subtracted whatever the direction of motion,
      so it depends on the speed only. */
  function Drag(p: Params, v: real): (fd: real)
    requires p.Valid()
    ensures fd >= 0.0
  {
    DragNonNegative(p.dragCoefficient * p.area, v);
    p.dragCoefficient * p.area * v * v
  }

  lemma DragNonNegative(k: real, v: real)
    requires k > 0.0
    ensures k * v * v >= 0.0
  {
    assert k * v * v == k * (v * v);
  }

  /** The step taken at time `t` from height `h` and velocity `v`. */
  function Step(p: Params, t: real, h: real, v: real): (s: Sample)
    requires p.Valid()
    ensures s.t == t
    ensures var f := ForcesAt(p, t);
            f.mass * s.a == f.thrust - Drag(p, v) - f.mass * p.g
    ensures s.v - v == s.a * p.dt
    ensures s.h - h == s.v * p.dt
  {
    var f := ForcesAt(p, t);
    var fd := Drag(p, v);
    var fg := f.mass * p.g;
    var total := f.thrust - fd - fg;
    var a := total / f.mass;
    var v' := v + a * p.dt;
    var h' := h + v' * p.dt;
    Sample(t, h', v', a)
  }

  /** Drag only ever slows the vehicle: the acceleration is at most what
      thrust and gravity alone would give. */
  lemma AccelerationBound(p: Params, t: real, h: real, v: real)
    requires p.Valid()
    ensures var f := ForcesAt(p, t);
            Step(p, t, h, v).a <= f.thrust / f.mass - p.g
  {
    var f := ForcesAt(p, t);
    var s := Step(p, t, h, v);
    assert f.mass * s.a <= f.thrust - f.mass * p.g;
    assert f.mass * (f.thrust / f.mass - p.g) == f.thrust - f.mass * p.g;
    assert f.mass * (s.a - (f.thrust / f.mass - p.g)) <= 0.0;
  }

  /** After the burn the acceleration is at most -g, so every coasting step
      strictly lowers the velocity. */
  lemma CoastDecelerates(p: Params, t: real, h: real, v: real)
    requires p.Valid() && p.burnTime < t
    ensures Step(p, t, h, v).a <= -p.g
    ensures Step(p, t, h, v).v < v
  {
    AccelerationBound(p, t, h, v);
    var s := Step(p, t, h, v);
    assert s.a < 0.0;
    assert s.a * p.dt < 0.0;
  }

  /** The height uses the updated velocity: the step moves the vehicle by
      v*dt + a*dt^2, not by the explicit-Euler v*dt. */
  lemma SemiImplicitHeight(p: Params, t: real, h: real, v: real)
    requires p.Valid()
    ensures var s := Step(p, t, h, v);
            s.h == h + v * p.dt + s.a * p.dt * p.dt
  {
    var s := Step(p, t, h, v);
    assert s.v * p.dt == v * p.dt + s.a * p.dt * p.dt;
  }

  /** Drag does not depend on the sign of the velocity: climbing or falling
      at the same speed gives the same acceleration. */
  lemma DragIgnoresDirection(p: Params, t: real, h: real, v: real)
    requires p.Valid()
    ensures Step(p, t, h, v).a == Step(p, t, h, -v).a
  {
    assert (-v) * (-v) == v * v;
    assert Drag(p, v) == Drag(p, -v);
  }
}
