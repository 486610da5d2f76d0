/** The constants of the flight: physical constants, the engine's data and
    the integration step. They are fixed at start-up and never change. */
module Parameters {

  /** Seconds after the end of the burn at which the ejection charge is assumed to fire. */
  const EjectionDelay: real := 4.0

  /** Metres added to the height at the first descending sample when the
      ejection charge fires before that sample. */
  const CoastCorrection: real := 2.0

  datatype Params = Params(
    g: real,               // gravitational acceleration, m/s^2
    area: real,            // cross-sectional area, m^2
    dragCoefficient: real, // dimensionless
    massBeforeBurn: real,  // kg
    massAfterBurn: real,   // kg
    burnTime: real,        // average burning time, s
    averageThrust: real,   // N
    dt: real,              // integration step, s
    horizon: real          // the loop runs while t <= horizon, s
  )
  {
    /** What the simulation relies on: the masses are positive and do not
        grow during the burn, the burn and the step have positive length,
        and gravity, drag and thrust have the signs the force law assumes. */
    predicate Valid()
    {
      && g > 0.0
      && area > 0.0
      && dragCoefficient > 0.0
      && massAfterBurn > 0.0
      && massBeforeBurn >= massAfterBurn
      && burnTime > 0.0
      && averageThrust >= 0.0
      && dt > 0.0
    }
  }

  /** The constants the program runs with. */
  function Default(): (p: Params)
    ensures p.Valid()
    ensures p.horizon > p.burnTime + EjectionDelay
  {
    Params(
      g := 9.81,
      area := 0.000467,
      dragCoefficient := 1.03,
      massBeforeBurn := 0.0548,
      massAfterBurn := 0.0488,
      burnTime := 0.888,
      averageThrust := 4.635247748,
      dt := 0.05,
      horizon := 6.0)
  }
}
