/**
  Constraint.java of swagrid.constraintsolver: a linear equation
  c1*v1 + ... + cn*vn = sum whose coefficients and sum are changed in place,
  some of the changes re-solving the system.
*/
module Constraints {
  import opened Numbers
  import opened Tables
  import opened Solving

  /** `containsVariable(var)`: the variable's coefficient is larger in magnitude than this
      class's tolerance, so a variable without entry, or stored with a coefficient within
      tolerance of zero, is not contained. */
  function ContainsVariable(c: ConstraintState, v: VariableId): (b: bool)
    ensures b <==> v in c.terms && Abs(c.terms[v]) > ConstraintTolerance
  {
    Abs(Coefficient(c, v)) > ConstraintTolerance
  }

  /** `new Constraint(solver)`: an empty constraint, appended to the solver's list; no solve. */
  method NewConstraint(s: Solver) returns (id: ConstraintId)
    requires s.Valid()
    modifies s
    ensures s.Valid()
    ensures id == old(s.nextConstraint) && id !in old(s.constraints) && s.nextConstraint == id + 1
    ensures s.constraints == old(s.constraints)[id := EmptyConstraint]
    ensures s.constr == old(s.constr) + [id]
    ensures s.variables == old(s.variables) && s.notifications == old(s.notifications)
    ensures s.autoSolve == old(s.autoSolve) && s.errorOnOverConstrained == old(s.errorOnOverConstrained)
  {
    id := s.nextConstraint;
    s.constraints := s.constraints[id := EmptyConstraint];
    s.nextConstraint := s.nextConstraint + 1;
    s.constr := s.constr + [id];
  }

  /** `addVar(var, coefficient)`: adds to the coefficient of a contained variable without
      re-solving.  For a variable that is not contained the method calls itself with the same
      arguments until the stack overflows; nothing has changed by then. */
  method AddVar(s: Solver, id: ConstraintId, v: VariableId, coefficient: real) returns (outcome: Outcome)
    requires s.Valid() && id in s.constraints && v < |s.variables|
    modifies s
    ensures s.Valid()
    ensures var c := old(s.constraints[id]);
      if ContainsVariable(c, v) then
        && outcome == Done
        && s.constraints == old(s.constraints)[id := c.(terms := c.terms[v := c.terms[v] + coefficient])]
      else
        outcome == StackOverflowFailure && s.constraints == old(s.constraints)
    ensures s.constr == old(s.constr) && s.nextConstraint == old(s.nextConstraint)
    ensures s.variables == old(s.variables) && s.notifications == old(s.notifications)
    ensures s.autoSolve == old(s.autoSolve) && s.errorOnOverConstrained == old(s.errorOnOverConstrained)
  {
    var c := s.constraints[id];
    if !ContainsVariable(c, v) {
      return StackOverflowFailure;
    }
    s.constraints := s.constraints[id := c.(terms := c.terms[v := c.terms[v] + coefficient])];
    outcome := Done;
  }

  /** `setVar(var, coefficient)`: inserts or replaces the coefficient, keeps every other term,
      and re-solves when auto-solve is on. */
  method SetVar(s: Solver, id: ConstraintId, v: VariableId, coefficient: real) returns (outcome: Outcome)
    requires s.Valid() && id in s.constraints && v < |s.variables|
    modifies s
    ensures s.Valid()
    ensures var c := old(s.constraints[id]);
      s.constraints == old(s.constraints)[id := c.(terms := c.terms[v := coefficient])]
    ensures Coefficient(s.constraints[id], v) == coefficient
    ensures forall w :: w != v ==> Coefficient(s.constraints[id], w) == Coefficient(old(s.constraints[id]), w)
    ensures s.constr == old(s.constr) && s.nextConstraint == old(s.nextConstraint)
    ensures s.autoSolve == old(s.autoSolve) && s.errorOnOverConstrained == old(s.errorOnOverConstrained)
    ensures |s.variables| == old(|s.variables|)
    ensures SolveIfStep(old(s.autoSolve), s.Grid(), s.errorOnOverConstrained, old(s.variables), old(s.notifications),
                        outcome, s.variables, s.notifications)
  {
    var c := s.constraints[id];
    s.constraints := s.constraints[id := c.(terms := c.terms[v := coefficient])];
    outcome := s.SolveIfEnabled();
  }

  /** `removeVar(var)`: drops the variable's entry, so its coefficient reads 0.0; no solve. */
  method RemoveVar(s: Solver, id: ConstraintId, v: VariableId)
    requires s.Valid() && id in s.constraints && v < |s.variables|
    modifies s
    ensures s.Valid()
    ensures var c := old(s.constraints[id]);
      s.constraints == old(s.constraints)[id := c.(terms := c.terms - {v})]
    ensures Coefficient(s.constraints[id], v) == 0.0 && !ContainsVariable(s.constraints[id], v)
    ensures forall w :: w != v ==> Coefficient(s.constraints[id], w) == Coefficient(old(s.constraints[id]), w)
    ensures s.constr == old(s.constr) && s.nextConstraint == old(s.nextConstraint)
    ensures s.variables == old(s.variables) && s.notifications == old(s.notifications)
    ensures s.autoSolve == old(s.autoSolve) && s.errorOnOverConstrained == old(s.errorOnOverConstrained)
  {
    var c := s.constraints[id];
    s.constraints := s.constraints[id := c.(terms := c.terms - {v})];
  }

  /** `setSum(sum)`: sets the target sum and re-solves when auto-solve is on. */
  method SetSum(s: Solver, id: ConstraintId, sum: real) returns (outcome: Outcome)
    requires s.Valid() && id in s.constraints
    modifies s
    ensures s.Valid()
    ensures s.constraints == old(s.constraints)[id := old(s.constraints[id]).(sum := sum)]
    ensures s.constr == old(s.constr) && s.nextConstraint == old(s.nextConstraint)
    ensures s.autoSolve == old(s.autoSolve) && s.errorOnOverConstrained == old(s.errorOnOverConstrained)
    ensures |s.variables| == old(|s.variables|)
    ensures SolveIfStep(old(s.autoSolve), s.Grid(), s.errorOnOverConstrained, old(s.variables), old(s.notifications),
                        outcome, s.variables, s.notifications)
  {
    s.constraints := s.constraints[id := s.constraints[id].(sum := sum)];
    outcome := s.SolveIfEnabled();
  }

  /** `delete()`: the first occurrence of the constraint leaves the solver's list; the
      constraint object itself survives, and nothing is re-solved. */
  method Delete(s: Solver, id: ConstraintId)
    requires s.Valid()
    modifies s
    ensures s.Valid()
    ensures s.constr == RemoveFirst(old(s.constr), id)
    ensures s.constraints == old(s.constraints) && s.nextConstraint == old(s.nextConstraint)
    ensures s.variables == old(s.variables) && s.notifications == old(s.notifications)
    ensures s.autoSolve == old(s.autoSolve) && s.errorOnOverConstrained == old(s.errorOnOverConstrained)
  {
    s.constr := RemoveFirst(s.constr, id);
  }
}
