/** The force/phase law: the vehicle's mass and the engine's thrust as a
    function of the time since ignition. There is no phase flag; the phase
    is recomputed from the time at every step. */
module Phase {
  import opened Parameters

  datatype Forces = Forces(mass: real, thrust: real)

  /** Linear interpolation between the points (x0, y0) and (x1, y1),
      clamped to y0 left of x0 and to y1 right of x1, as numpy's `interp`
      does for two sample points. */
  function Interp(x: real, x0: real, x1: real, y0: real, y1: real): (y: real)
    requires x0 < x1
    ensures x <= x0 ==> y == y0
    ensures x >= x1 ==> y == y1
    ensures (y0 <= y <= y1) || (y1 <= y <= y0)
  {
    if x <= x0 then y0
    else if x >= x1 then y1
    else
      var slope := (y1 - y0) / (x1 - x0);
      InterpBetween(x - x0, x1 - x0, y1 - y0);
      slope * (x - x0) + y0
  }

  /** The fraction `d / w` of a rise `rise` lies between 0 and `rise`. */
  lemma InterpBetween(d: real, w: real, rise: real)
    requires 0.0 < d < w
    ensures var q := rise / w * d; (0.0 <= q <= rise) || (rise <= q <= 0.0)
  {
    var s := rise / w;
    assert s * w == rise;
    if rise >= 0.0 {
      assert s >= 0.0;
      assert s * d <= s * w;
    } else {
      assert s < 0.0;
      assert s * d >= s * w;
    }
  }

  /** Between the two sample points the interpolant lies on the straight
      line through them. */
  lemma InterpOnSegment(x: real, x0: real, x1: real, y0: real, y1: real)
    requires x0 < x1 && x0 <= x <= x1
    ensures (Interp(x, x0, x1, y0, y1) - y0) * (x1 - x0) == (y1 - y0) * (x - x0)
  {
    var y := Interp(x, x0, x1, y0, y1);
    if x == x0 {
    } else if x == x1 {
    } else {
      var s := (y1 - y0) / (x1 - x0);
      assert y - y0 == s * (x - x0);
      assert s * (x1 - x0) == y1 - y0;
      calc {
        (y - y0) * (x1 - x0);
        s * (x - x0) * (x1 - x0);
        s * (x1 - x0) * (x - x0);
        (y1 - y0) * (x - x0);
      }
    }
  }

  /** With a falling target (y1 <= y0) the interpolant never increases. */
  lemma InterpNonIncreasing(x: real, x': real, x0: real, x1: real, y0: real, y1: real)
    requires x0 < x1 && y1 <= y0 && x <= x'
    ensures Interp(x', x0, x1, y0, y1) <= Interp(x, x0, x1, y0, y1)
  {
    var s := (y1 - y0) / (x1 - x0);
    assert s <= 0.0;
    if x0 < x < x1 && x0 < x' < x1 {
      assert s * (x' - x0) <= s * (x - x0) by {
        assert s * (x' - x0) - s * (x - x0) == s * (x' - x);
      }
    }
  }

  /** Mass and thrust at time `t`: during the burn (t <= burnTime) the mass
      falls linearly from the before-burn to the after-burn mass and the
      thrust is the average thrust; after it the mass is the after-burn mass
      and there is no thrust. */
  function ForcesAt(p: Params, t: real): (f: Forces)
    requires p.Valid()
    ensures p.massAfterBurn <= f.mass <= p.massBeforeBurn
    ensures t <= p.burnTime ==> f.thrust == p.averageThrust
    ensures p.burnTime < t ==> f == Forces(p.massAfterBurn, 0.0)
  {
    if t <= p.burnTime then
      Forces(Interp(t, 0.0, p.burnTime, p.massBeforeBurn, p.massAfterBurn), p.averageThrust)
    else
      Forces(p.massAfterBurn, 0.0)
  }

  /** The mass never increases with time, across the end of the burn too. */
  lemma MassNonIncreasing(p: Params, t1: real, t2: real)
    requires p.Valid() && t1 <= t2
    ensures ForcesAt(p, t2).mass <= ForcesAt(p, t1).mass
  {
    if t2 <= p.burnTime {
      InterpNonIncreasing(t1, t2, 0.0, p.burnTime, p.massBeforeBurn, p.massAfterBurn);
    }
  }

  /** The mass is the before-burn mass at ignition, reaches the after-burn
      mass exactly at the end of the burn, and during the burn the points
      (t, mass) lie on the line through those two. */
  lemma MassProfile(p: Params, t: real)
    requires p.Valid() && 0.0 <= t <= p.burnTime
    ensures ForcesAt(p, 0.0).mass == p.massBeforeBurn
    ensures ForcesAt(p, p.burnTime).mass == p.massAfterBurn
    ensures (ForcesAt(p, t).mass - p.massBeforeBurn) * p.burnTime
         == (p.massAfterBurn - p.massBeforeBurn) * t
  {
    InterpOnSegment(t, 0.0, p.burnTime, p.massBeforeBurn, p.massAfterBurn);
  }
}
