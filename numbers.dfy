/** Numeric helpers shared by the engine: every Java `double` is read as an exact `real`. */
module Numbers {

  /** Java's `Math.abs` on a double, over the reals. */
  function Abs(x: real): (r: real)
    ensures r >= 0.0
    ensures r == x || r == -x
  {
    if x < 0.0 then -x else x
  }

  /** `Matrix.TOLERANCE`: the file holds an unresolved merge between 1e-6 and 1e-7;
      the model takes the 1e-6 side, which `Variable` and the builder `Constraint` also use. */
  const MatrixTolerance: real := 0.000001

  /** `Variable.TOLERANCE`, used by `setValue` and `updateValue`. */
  const VariableTolerance: real := 0.000001

  /** `TOLERANCE` of the mutable `Constraint` in swagrid.constraintsolver. */
  const ConstraintTolerance: real := 0.0000001

  /** `TOLERANCE` of the builder-style `Constraint` in swagsolver. */
  const BuilderTolerance: real := 0.000001
}
