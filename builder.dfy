/**
  Constraint.java of swagsolver: the builder-style constraint.  `create` makes a
  constraint the solver does not list yet, `var` and `sum` fill it in, and
  `build` lists it and re-solves.  Deleting it and reading its coefficients work
  as for the other constraint class (Constraints.Delete, Tables.Coefficient).
*/
module Builders {
  import opened Numbers
  import opened Tables
  import opened Solving

  /** `containsVariable(var)` of this class: as in the other constraint class, but with
      a tolerance of 1e-6. */
  function ContainsVariable(c: ConstraintState, v: VariableId): (b: bool)
    ensures b <==> v in c.terms && Abs(c.terms[v]) > BuilderTolerance
  {
    Abs(Coefficient(c, v)) > BuilderTolerance
  }

  /** `Constraint.create(solver)`: a new, empty constraint that is not in the solver's list. */
  method Create(s: Solver) returns (id: ConstraintId)
    requires s.Valid()
    modifies s
    ensures s.Valid()
    ensures id == old(s.nextConstraint) && id !in old(s.constraints) && s.nextConstraint == id + 1
    ensures s.constraints == old(s.constraints)[id := EmptyConstraint]
    ensures id !in s.constr && s.constr == old(s.constr)
    ensures s.variables == old(s.variables) && s.notifications == old(s.notifications)
    ensures s.autoSolve == old(s.autoSolve) && s.errorOnOverConstrained == old(s.errorOnOverConstrained)
  {
    id := s.nextConstraint;
    s.constraints := s.constraints[id := EmptyConstraint];
    s.nextConstraint := s.nextConstraint + 1;
  }

  /** `ConstraintBuilder.var(var, coefficient)`: inserts or replaces the coefficient and keeps
      every other term; nothing is solved. */
  method Var(s: Solver, id: ConstraintId, v: VariableId, coefficient: real)
    requires s.Valid() && id in s.constraints && v < |s.variables|
    modifies s
    ensures s.Valid()
    ensures var c := old(s.constraints[id]);
      s.constraints == old(s.constraints)[id := c.(terms := c.terms[v := coefficient])]
    ensures Coefficient(s.constraints[id], v) == coefficient
    ensures forall w :: w != v ==> Coefficient(s.constraints[id], w) == Coefficient(old(s.constraints[id]), w)
    ensures s.constr == old(s.constr) && s.nextConstraint == old(s.nextConstraint)
    ensures s.variables == old(s.variables) && s.notifications == old(s.notifications)
    ensures s.autoSolve == old(s.autoSolve) && s.errorOnOverConstrained == old(s.errorOnOverConstrained)
  {
    var c := s.constraints[id];
    s.constraints := s.constraints[id := c.(terms := c.terms[v := coefficient])];
  }

  /** `ConstraintBuilder.sum(sum)`: sets the target sum; nothing is solved. */
  method Sum(s: Solver, id: ConstraintId, sum: real)
    requires s.Valid() && id in s.constraints
    modifies s
    ensures s.Valid()
    ensures s.constraints == old(s.constraints)[id := old(s.constraints[id]).(sum := sum)]
    ensures s.constr == old(s.constr) && s.nextConstraint == old(s.nextConstraint)
    ensures s.variables == old(s.variables) && s.notifications == old(s.notifications)
    ensures s.autoSolve == old(s.autoSolve) && s.errorOnOverConstrained == old(s.errorOnOverConstrained)
  {
    s.constraints := s.constraints[id := s.constraints[id].(sum := sum)];
  }

  /** `ConstraintBuilder.build()`: appends the constraint to the solver's list, then re-solves
      the enlarged system when auto-solve is on.  A failing solve leaves the constraint listed. */
  method Build(s: Solver, id: ConstraintId) returns (outcome: Outcome)
    requires s.Valid() && id in s.constraints
    modifies s
    ensures s.Valid()
    ensures s.constr == old(s.constr) + [id]
    ensures s.constraints == old(s.constraints) && s.nextConstraint == old(s.nextConstraint)
    ensures s.autoSolve == old(s.autoSolve) && s.errorOnOverConstrained == old(s.errorOnOverConstrained)
    ensures |s.variables| == old(|s.variables|)
    ensures forall i :: 0 <= i < |s.variables| ==> s.variables[i] == old(s.variables[i]).(value := s.variables[i].value)
    ensures SolveIfStep(old(s.autoSolve), s.Grid(), s.errorOnOverConstrained, old(s.variables), old(s.notifications),
                        outcome, s.variables, s.notifications)
  {
    s.constr := s.constr + [id];
    outcome := s.SolveIfEnabled();
  }
}
