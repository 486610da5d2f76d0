/** The summary drawn from a recording: the apogee index, the maximum
    height under the ejection-delay rule, and the maximum velocity and
    acceleration. */
module Summary {
  import opened Wrappers
  import opened Parameters
  import opened Simulation
  import opened Search
  import opened Flight

  datatype FlightSummary = FlightSummary(maxHeight: real, maxVelocity: real, maxAcceleration: real)

  /** The program's search for the first descending sample finds none. */
  datatype SummaryError = NoApogeeDetected

  /** The maximum height the ejection-delay rule assigns when the first
      negative velocity is at index k: if that sample is at or after the
      moment the ejection charge fires, the highest recorded height;
      otherwise that sample's height plus the coast correction. */
  ghost predicate MaxHeightRule(p: Params, tr: Trajectory, k: nat, maxHeight: real)
    requires tr.Aligned() && k < |tr.ts|
  {
    if tr.ts[k] >= p.burnTime + EjectionDelay then IsMax(tr.hs, maxHeight)
    else maxHeight == tr.hs[k] + CoastCorrection
  }

  /** Summarise a recording. Fails exactly when no recorded velocity is
      negative; otherwise the maximum height follows the ejection-delay
      rule at the first negative velocity, and the maximum velocity and
      acceleration are taken over the whole recording. */
  function Summarize(p: Params, tr: Trajectory): (r: Result<FlightSummary, SummaryError>)
    requires tr.Aligned()
    ensures r.Failure? <==> forall i :: 0 <= i < |tr.vs| ==> tr.vs[i] >= 0.0
    ensures forall k: nat :: IsFirstNegative(tr.vs, k) ==>
              r.Success? && MaxHeightRule(p, tr, k, r.value.maxHeight)
    ensures r.Success? ==> IsMax(tr.vs, r.value.maxVelocity)
    ensures r.Success? ==> IsMax(tr.accs, r.value.maxAcceleration)
  {
    match ApogeeIndex(tr.vs)
    case None => Failure(NoApogeeDetected)
    case Some(k) =>
      var maxHeight :=
        if tr.ts[k] >= p.burnTime + EjectionDelay then MaxOf(tr.hs)
        else tr.hs[k] + CoastCorrection;
      FirstNegativeUnique(tr.vs, k);
      Success(FlightSummary(maxHeight, MaxOf(tr.vs), MaxOf(tr.accs)))
  }

  /** For a recording of the loop (complete or not) whose first
      descending sample comes at or after the ejection time, the reported
      maximum height is the height of the sample just before that one: the
      true peak of the recording. */
  lemma DescendingBranchPeak(p: Params, tr: Trajectory, k: nat)
    requires p.Valid() && Consistent(p, tr)
    requires IsFirstNegative(tr.vs, k) && tr.ts[k] >= p.burnTime + EjectionDelay
    ensures 0 < k
    ensures Summarize(p, tr).Success?
    ensures Summarize(p, tr).value.maxHeight == tr.hs[k - 1]
  {
    PeakBeforeFirstDescent(p, tr, k);
    MaxUnique(tr.hs, Summarize(p, tr).value.maxHeight, tr.hs[k - 1]);
  }

  /** The comparison with the ejection time is inclusive: a first negative
      velocity exactly at burn time + 4 s takes the highest height, not
      that sample's height plus 2 m. */
  lemma EjectionBoundaryTakesMax()
    ensures var p := Default();
            var tr := Trajectory([0.0, 4.888], [9.0, 5.0], [1.0, -1.0], [0.0, 0.0]);
            Summarize(p, tr) == Success(FlightSummary(9.0, 1.0, 0.0))
  {
    var p := Default();
    var tr := Trajectory([0.0, 4.888], [9.0, 5.0], [1.0, -1.0], [0.0, 0.0]);
    assert IsFirstNegative(tr.vs, 1);
    MaxUnique(tr.hs, Summarize(p, tr).value.maxHeight, 9.0);
    MaxUnique(tr.vs, Summarize(p, tr).value.maxVelocity, 1.0);
    MaxUnique(tr.accs, Summarize(p, tr).value.maxAcceleration, 0.0);
  }

  /** A recording whose velocity never turns negative is reported as
      having no apogee, not as a crash. */
  lemma NoDescentNoApogee()
    ensures var tr := Trajectory([0.0, 0.05], [0.1, 0.3], [2.0, 4.0], [40.0, 40.0]);
            Summarize(Default(), tr) == Failure(NoApogeeDetected)
  {
  }
}
