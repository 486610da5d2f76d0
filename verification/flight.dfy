/** What a recording says about the flight: the clock runs forward, the
    coasting vehicle keeps slowing, the height climbs while the velocity is
    non-negative and falls while it is negative, and so the highest sample
    is the one just before the first descending one. */
module Flight {
  import opened Parameters
  import opened Phase
  import opened Dynamics
  import opened Simulation
  import opened Search

  /** Recorded times strictly increase. */
  lemma {:induction false} TimeIncreasing(p: Params, tr: Trajectory, i: nat, j: nat)
    requires p.Valid() && Consistent(p, tr) && i < j < |tr.ts|
    ensures tr.ts[i] < tr.ts[j]
  {
    Recurrence(p, tr, j);
    if i < j - 1 {
      TimeIncreasing(p, tr, i, j - 1);
    }
  }

  /** Every sample recorded after the burn has a lower velocity than the
      one before it, and an acceleration of at most -g. */
  lemma CoastVelocityFalls(p: Params, tr: Trajectory, i: nat)
    requires p.Valid() && Consistent(p, tr) && 0 < i < |tr.ts| && p.burnTime < tr.ts[i]
    ensures tr.accs[i] <= -p.g
    ensures tr.vs[i] < tr.vs[i - 1]
  {
    SampleStep(p, tr, i);
    var st := CarriedInto(p, tr, i);
    CoastDecelerates(p, st.t, st.h, st.v);
  }

  /** From a sample after the burn on, the velocity never rises again. */
  lemma {:induction false} VelocityFallsAfterBurn(p: Params, tr: Trajectory, i: nat, j: nat)
    requires p.Valid() && Consistent(p, tr) && i <= j < |tr.ts| && p.burnTime < tr.ts[i]
    ensures tr.vs[j] <= tr.vs[i]
  {
    if i < j {
      VelocityFallsAfterBurn(p, tr, i, j - 1);
      TimeIncreasing(p, tr, i, j);
      CoastVelocityFalls(p, tr, j);
    }
  }

  /** While the recorded velocities stay non-negative the height does not
      fall. */
  lemma {:induction false} HeightRisesWhileClimbing(p: Params, tr: Trajectory, i: nat, j: nat)
    requires p.Valid() && Consistent(p, tr) && i <= j < |tr.ts|
    requires forall m :: i < m <= j ==> tr.vs[m] >= 0.0
    ensures tr.hs[i] <= tr.hs[j]
  {
    if i < j {
      HeightRisesWhileClimbing(p, tr, i, j - 1);
      Recurrence(p, tr, j);
      assert tr.vs[j] * p.dt >= 0.0;
    }
  }

  /** While the recorded velocities stay negative the height falls: it
      never rises, and strictly drops over any non-empty stretch. */
  lemma {:induction false} HeightFallsWhileDescending(p: Params, tr: Trajectory, i: nat, j: nat)
    requires p.Valid() && Consistent(p, tr) && i <= j < |tr.ts|
    requires forall m :: i < m <= j ==> tr.vs[m] < 0.0
    ensures tr.hs[j] <= tr.hs[i]
    ensures i < j ==> tr.hs[j] < tr.hs[i]
  {
    if i < j {
      HeightFallsWhileDescending(p, tr, i, j - 1);
      Recurrence(p, tr, j);
      assert tr.vs[j] * p.dt < 0.0;
    }
  }

  /** When the first negative velocity is recorded after the burn, the
      highest recorded height is the one just before it: the vehicle climbs
      up to that sample and, coasting, never climbs again. */
  lemma PeakBeforeFirstDescent(p: Params, tr: Trajectory, k: nat)
    requires p.Valid() && Consistent(p, tr)
    requires IsFirstNegative(tr.vs, k) && p.burnTime < tr.ts[k]
    ensures 0 < k
    ensures IsMax(tr.hs, tr.hs[k - 1])
  {
    Recurrence(p, tr, 0);
    forall j | 0 <= j < |tr.hs|
      ensures tr.hs[j] <= tr.hs[k - 1]
    {
      if j <= k - 1 {
        HeightRisesWhileClimbing(p, tr, j, k - 1);
      } else {
        forall m | k - 1 < m <= j
          ensures tr.vs[m] < 0.0
        {
          VelocityFallsAfterBurn(p, tr, k, m);
        }
        HeightFallsWhileDescending(p, tr, k - 1, j);
      }
    }
  }
}
