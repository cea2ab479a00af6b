/**
  The repository's demonstration program, Test.java: two variables at 0.0 without update
  functions, and the constraints v1 + v2 = 6 and 2*v1 + v2 = 8.  With auto-solve on, the
  calls building the first constraint each solve the system so far; the one that sets its
  sum moves v1 to 6, and notifying v1 fails for want of an update function, so the program
  stops there (DemoFirstLine).  The final two-constraint system, which the program never
  reaches, is worked through as well: it solves to v1 = 2, v2 = 4.
*/
module Scenario {
  import opened Numbers
  import opened Echelon
  import opened Tables
  import opened Solving

  /** The demo system v1 + v2 = 6, 2*v1 + v2 = 8 as the solver lays it out: a column per
      variable, then the sums. */
  const Demo: Grid := [[1.0, 2.0], [1.0, 1.0], [6.0, 8.0]]

  /** The first pass of `rref` on the demo: row 1 has the larger entry in column 0, so it is
      swapped up, cleared below and scaled. */
  lemma DemoFirstPivot()
    ensures IsMatrix(Demo) && PivotRow(Demo, 0, 0, 2) == 1
    ensures PivotStep(Demo, 0, 0, 1) == [[1.0, 0.0], [0.5, 0.5], [4.0, 2.0]]
  {
    var s := SwapRows(Demo, 0, 1);
    assert s[0] == [2.0, 1.0] && s[1] == [1.0, 1.0] && s[2] == [8.0, 6.0];
    assert s == [[2.0, 1.0], [1.0, 1.0], [8.0, 6.0]];
    var t := SubtractPivot(s, 0, 0);
    assert t[0][0] == 2.0 && t[0][1] == 0.0 && t[1][0] == 1.0 && t[1][1] == 0.5 && t[2][0] == 8.0 && t[2][1] == 2.0;
    assert t[0] == [2.0, 0.0] && t[1] == [1.0, 0.5] && t[2] == [8.0, 2.0];
    assert t == [[2.0, 0.0], [1.0, 0.5], [8.0, 2.0]];
    var u := ReduceRow(t, 0, 0);
    assert u[0] == [1.0, 0.0] && u[1] == [0.5, 0.5] && u[2] == [4.0, 2.0];
  }

  /** The second pass: row 1 is the only candidate for column 1 and is scaled to a leading one. */
  lemma DemoSecondPivot(g: Grid)
    requires g == [[1.0, 0.0], [0.5, 0.5], [4.0, 2.0]]
    ensures IsMatrix(g) && PivotRow(g, 1, 1, 2) == 1
    ensures PivotStep(g, 1, 1, 1) == [[1.0, 0.0], [0.5, 1.0], [4.0, 4.0]]
  {
    var s := SwapRows(g, 1, 1);
    assert s[0] == g[0] && s[1] == g[1] && s[2] == g[2];
    assert s == g;
    var t := SubtractPivot(g, 1, 1);
    assert t[0] == g[0] && t[1] == g[1] && t[2] == g[2];
    assert t == g;
    var u := ReduceRow(g, 1, 1);
    assert u[0] == [1.0, 0.0] && u[1] == [0.5, 1.0] && u[2] == [4.0, 4.0];
  }

  /** `rref` reduces the demo to v1 + 0.5*v2 = 4, v2 = 4, with pivots in both variable columns. */
  lemma DemoRref()
    ensures IsMatrix(Demo) && Rref(Demo) == [[1.0, 0.0], [0.5, 1.0], [4.0, 4.0]]
  {
    DemoFirstPivot();
    var g1 := PivotStep(Demo, 0, 0, 1);
    DemoSecondPivot(g1);
    var g2 := PivotStep(g1, 1, 1, 1);
    assert RrefFrom(g2, 2, 2) == g2;
    assert RrefFrom(g1, 1, 1) == g2;
  }

  /** Back-substitution on the reduced demo gives v1 = 2, v2 = 4 (and 0.0 in the sum column). */
  lemma DemoBackSub(g: Grid)
    requires g == [[1.0, 0.0], [0.5, 1.0], [4.0, 4.0]]
    ensures IsMatrix(g) && !OverConstrained(g) && !UnderConstrained(g)
    ensures BackSub(g) == [2.0, 4.0, 0.0]
  {
    assert !NearZero(g[0][0]) && !NearZero(g[1][1]);
    assert !ZeroRow(g, 0) && !ZeroRow(g, 1);
    assert NearZero(g[0][1]) && LeadFrom(g, 1, 1) == 1;
    assert LeadFrom(g, 0, 0) == 0;
    var x2 := BackSubFrom(g, 2);
    assert x2 == [0.0, 0.0, 0.0];
    assert RowSum(g, 1, x2, 2, 3) == 0.0;
    var x1 := BackSubFrom(g, 1);
    assert x1 == x2[1 := 4.0];
    assert x1 == [0.0, 4.0, 0.0];
    assert RowSum(g, 0, x1, 1, 2) == 2.0;
    assert RowSum(g, 0, x1, 1, 3) == 2.0;
    assert Rank(g, 1) == 1;
  }

  /** The demo system has the one solution v1 = 2, v2 = 4, and the solver finds it. */
  lemma DemoSystemSolves()
    ensures IsMatrix(Demo) && !OverConstrained(Rref(Demo)) && !UnderConstrained(Rref(Demo))
    ensures BackSub(Rref(Demo)) == [2.0, 4.0, 0.0]
  {
    DemoRref();
    DemoBackSub(Rref(Demo));
  }

  /** The two constraints of the demo, with ids 0 and 1, over variables 0 (v1) and 1 (v2). */
  const DemoTable: map<ConstraintId, ConstraintState> :=
    map[0 := ConstraintState(map[0 := 1.0, 1 := 1.0], 6.0), 1 := ConstraintState(map[0 := 2.0, 1 := 1.0], 8.0)]

  /** `getMatrix` lays the demo's two constraints out as the demo grid. */
  lemma DemoMatrix()
    ensures MatrixOf(2, DemoTable, [0, 1]) == Demo
  {
    var g := MatrixOf(2, DemoTable, [0, 1]);
    assert g[0] == [1.0, 2.0] && g[1] == [1.0, 1.0] && g[2] == [6.0, 8.0];
  }

  /** Solving the demo grid, from any values of v1 and v2, sets v1 to 2 and v2 to 4 and does
      not fail for an over-constrained system; it fails for want of an update function
      exactly when a variable that moves has none. */
  lemma DemoSolveStep(errorFlag: bool, before: seq<VariableState>, log0: seq<Notification>,
                      outcome: Outcome, after: seq<VariableState>, log1: seq<Notification>)
    requires |before| == 2
    requires SolveStep(Demo, errorFlag, before, log0, outcome, after, log1)
    ensures Values(after) == [2.0, 4.0] && outcome != OverConstrainedFailure
    ensures outcome == Done <==> forall i :: i in Changed(Values(before), [2.0, 4.0]) ==> before[i].hasHook
  {
    DemoSystemSolves();
    assert WrittenBack(before, after, [2.0, 4.0, 0.0]);
    assert Values(after) == [2.0, 4.0];
  }

  // ---------------------------------------------------------------------------
  // Test.java as written: the first constraint's line
  // ---------------------------------------------------------------------------

  /** `rref` and `solve()` on one equation 1.0*v1 + b*v2 = s: the grid is already reduced,
      and back-substitution gives v1 = s and v2 = 0. */
  lemma OneEquation(b: real, s: real)
    ensures var g := [[1.0], [b], [s]];
      && IsMatrix(g) && Rref(g) == g && !OverConstrained(g) && BackSub(g) == [s, 0.0, 0.0]
  {
    var g := [[1.0], [b], [s]];
    assert PivotRow(g, 0, 0, 1) == 0;
    var t := SubtractPivot(SwapRows(g, 0, 0), 0, 0);
    assert t[0] == g[0] && t[1] == g[1] && t[2] == g[2];
    var u := ReduceRow(t, 0, 0);
    assert u[0] == g[0] && u[1] == g[1] && u[2] == g[2];
    assert PivotStep(g, 0, 0, 0) == g;
    assert RrefFrom(g, 1, 1) == g;
    assert !ZeroRow(g, 0) && LeadFrom(g, 0, 0) == 0;
    var x1 := BackSubFrom(g, 1);
    assert x1 == [0.0, 0.0, 0.0];
    assert RowSum(g, 0, x1, 1, 3) == 0.0;
  }

  /** One solve of the equation 1.0*v1 + b*v2 = s, from two variables at 0.0 without update
      functions: v1 becomes s and v2 stays 0.  The solve succeeds and calls nothing exactly
      when s is within tolerance of 0.0; otherwise v1 moves and its missing update function
      makes the call fail. */
  lemma OneEquationSolveStep(b: real, s: real, errorFlag: bool, before: seq<VariableState>,
                             log0: seq<Notification>, outcome: Outcome, after: seq<VariableState>,
                             log1: seq<Notification>)
    requires |before| == 2 && Values(before) == [0.0, 0.0] && !before[0].hasHook
    requires SolveStep([[1.0], [b], [s]], errorFlag, before, log0, outcome, after, log1)
    ensures |after| == 2 && Values(after) == [s, 0.0]
    ensures Abs(s) <= VariableTolerance ==> outcome == Done && log1 == log0
    ensures Abs(s) > VariableTolerance ==> outcome == NullHookFailure
  {
    OneEquation(b, s);
    assert WrittenBack(before, after, [s, 0.0, 0.0]);
    assert Values(after) == [s, 0.0];
    if Abs(s) > VariableTolerance {
      assert 0 in Changed(Values(before), Values(after));
    } else {
      assert Changed(Values(before), Values(after)) == {};
    }
  }

  /** The tables after each call of `new Constraint(s).setVar(v1, 1.0).setVar(v2, 1.0)`
      `.setSum(6.0)`: each call that solves sees the one constraint built so far. */
  const AfterSetV1: map<ConstraintId, ConstraintState> := map[0 := ConstraintState(map[0 := 1.0], 0.0)]
  const AfterSetV2: map<ConstraintId, ConstraintState> := map[0 := ConstraintState(map[0 := 1.0, 1 := 1.0], 0.0)]
  const AfterSetSum: map<ConstraintId, ConstraintState> := map[0 := ConstraintState(map[0 := 1.0, 1 := 1.0], 6.0)]

  /** `getMatrix` for a system of two variables and one constraint c: a grid of one row,
      c's two coefficients and its sum. */
  lemma OneConstraintMatrix(c: ConstraintState)
    ensures MatrixOf(2, map[0 := c], [0]) == [[Coefficient(c, 0)], [Coefficient(c, 1)], [c.sum]]
  {
    var g := MatrixOf(2, map[0 := c], [0]);
    assert g[0] == [Coefficient(c, 0)] && g[1] == [Coefficient(c, 1)] && g[2] == [c.sum];
  }

  /** The first line of the demo, with auto-solve on: the solves after `setVar(v1, 1.0)` and
      `setVar(v2, 1.0)` leave both variables at 0.0 and call nothing; the solve after
      `setSum(6.0)` sets v1 to 6 and fails for want of v1's update function, so the second
      constraint and the printing are never reached. */
  lemma DemoFirstLine(errorFlag: bool, vs0: seq<VariableState>, log0: seq<Notification>,
                      o1: Outcome, vs1: seq<VariableState>, log1: seq<Notification>,
                      o2: Outcome, vs2: seq<VariableState>, log2: seq<Notification>,
                      o3: Outcome, vs3: seq<VariableState>, log3: seq<Notification>)
    requires |vs0| == 2 && Values(vs0) == [0.0, 0.0] && !vs0[0].hasHook && !vs0[1].hasHook
    requires SolveStep(MatrixOf(2, AfterSetV1, [0]), errorFlag, vs0, log0, o1, vs1, log1)
    requires |vs1| == 2 && SolveStep(MatrixOf(2, AfterSetV2, [0]), errorFlag, vs1, log1, o2, vs2, log2)
    requires |vs2| == 2 && SolveStep(MatrixOf(2, AfterSetSum, [0]), errorFlag, vs2, log2, o3, vs3, log3)
    ensures o1 == Done && o2 == Done && log2 == log0 && Values(vs2) == [0.0, 0.0]
    ensures o3 == NullHookFailure && Values(vs3) == [6.0, 0.0]
  {
    OneConstraintMatrix(AfterSetV1[0]);
    OneConstraintMatrix(AfterSetV2[0]);
    OneConstraintMatrix(AfterSetSum[0]);
    OneEquationSolveStep(0.0, 0.0, errorFlag, vs0, log0, o1, vs1, log1);
    assert vs1[0].hasHook == vs0[0].hasHook;
    OneEquationSolveStep(1.0, 0.0, errorFlag, vs1, log1, o2, vs2, log2);
    assert vs2[0].hasHook == vs1[0].hasHook;
    OneEquationSolveStep(1.0, 6.0, errorFlag, vs2, log2, o3, vs3, log3);
  }
}
