/**
  Solver.java: the set of variables and constraints, the augmented matrix built from
  them, and `solve`, which reduces the matrix, writes the solution back into the
  variables and then calls the update functions of the variables that changed.

  The solver owns every entity: variables are records in `variables` (index = column),
  constraint objects are records in `constraints` (by id), and `constr` is the solver's
  own constraint list.  Calls of update functions are recorded in `notifications`.
*/
module Solving {
  import opened Numbers
  import opened Echelon
  import opened Matrices
  import opened Tables
  import opened Solutions

  /** `getMatrix()` as a value: one column per variable holding each listed constraint's
      coefficient for it, then a column of the constraints' sums; one row per list entry.
      The variables' current values play no part. */
  function MatrixOf(n: nat, table: map<ConstraintId, ConstraintState>, list: seq<ConstraintId>): (g: Grid)
    requires forall k :: 0 <= k < |list| ==> list[k] in table
    ensures IsMatrix(g) && |g| == n + 1 && Height(g) == |list|
    ensures forall c, r :: 0 <= c < n && 0 <= r < |list| ==> g[c][r] == Coefficient(table[list[r]], c)
    ensures forall r :: 0 <= r < |list| ==> g[n][r] == table[list[r]].sum
    decreases |list|
  {
    if list == [] then seq(n + 1, _ => [])
    else
      var last := table[list[|list| - 1]];
      var g := MatrixOf(n, table, list[..|list| - 1]);
      seq(n + 1, c requires 0 <= c <= n => g[c] + [if c < n then Coefficient(last, c) else last.sum])
  }

  /** The variables whose `updateValue` reports a change: those that moved by more than
      the variable tolerance. */
  function Changed(before: seq<real>, after: seq<real>): (ids: set<VariableId>)
    requires |before| == |after|
    ensures forall i :: i in ids <==> 0 <= i < |before| && Abs(after[i] - before[i]) > VariableTolerance
  {
    set i | 0 <= i < |before| && Abs(after[i] - before[i]) > VariableTolerance
  }

  /** The variables a log of update-function calls has called. */
  function Notified(log: seq<Notification>): (ids: set<VariableId>)
    ensures forall k :: 0 <= k < |log| ==> log[k].variable in ids
    ensures forall i :: i in ids ==> exists k :: 0 <= k < |log| && log[k].variable == i
  {
    set k | 0 <= k < |log| :: log[k].variable
  }

  /** The log calls the update functions of distinct variables of ids only, each of them
      registered and passed the variable's value in vs. */
  ghost predicate NotifiesWithin(log: seq<Notification>, vs: seq<VariableState>, ids: set<VariableId>)
  {
    && (forall k :: 0 <= k < |log| ==>
          && log[k].variable in ids && log[k].variable < |vs|
          && vs[log[k].variable].hasHook && log[k].value == vs[log[k].variable].value)
    && (forall k, l :: 0 <= k < l < |log| ==> log[k].variable != log[l].variable)
  }

  /** ... and calls each of them, once. */
  ghost predicate NotifiesAll(log: seq<Notification>, vs: seq<VariableState>, ids: set<VariableId>)
  {
    && NotifiesWithin(log, vs, ids)
    && ids <= Notified(log)
  }

  /** `solve()`'s write-back: every variable takes its entry of x, nothing else about it changes. */
  ghost predicate WrittenBack(before: seq<VariableState>, after: seq<VariableState>, x: seq<real>)
  {
    && |after| == |before| && |before| <= |x|
    && (forall i :: 0 <= i < |before| ==> after[i] == before[i].(value := x[i]))
  }

  /** `solve()`'s notification phase for the changed variables, on the written-back
      variables vs: the update functions of the changed variables are called, in no
      particular order, once each, and appended to the log; a changed variable without
      update function makes the call fail, and only then. */
  ghost predicate NotifyStep(changed: set<VariableId>, vs: seq<VariableState>, log0: seq<Notification>,
                             outcome: Outcome, log1: seq<Notification>)
    requires forall i :: i in changed ==> i < |vs|
  {
    && |log0| <= |log1| && log1[..|log0|] == log0
    && (outcome == Done || outcome == NullHookFailure)
    && (outcome == Done <==> forall i :: i in changed ==> vs[i].hasHook)
    && NotifiesWithin(log1[|log0|..], vs, changed)
    && (outcome == Done ==> NotifiesAll(log1[|log0|..], vs, changed))
    && (changed == {} ==> log1 == log0)
  }

  /** What one `solve()` does to the variables and the log, for the matrix g of the system:
      with the error flag set and the reduced matrix over-constrained, it fails before
      writing anything; otherwise every variable takes its column of the back-substitution
      and the changed ones are notified. */
  ghost predicate SolveStep(g: Grid, errorFlag: bool, before: seq<VariableState>, log0: seq<Notification>,
                            outcome: Outcome, after: seq<VariableState>, log1: seq<Notification>)
    requires IsMatrix(g) && |g| == |before| + 1
  {
    var reduced := Rref(g);
    if errorFlag && OverConstrained(reduced) then
      outcome == OverConstrainedFailure && after == before && log1 == log0
    else
      && WrittenBack(before, after, BackSub(reduced))
      && NotifyStep(Changed(Values(before), Values(after)), after, log0, outcome, log1)
  }

  /** What `solve()` behind an auto-solve check does: SolveStep when auto-solve is on,
      otherwise nothing at all. */
  ghost predicate SolveIfStep(autoSolve: bool, g: Grid, errorFlag: bool, before: seq<VariableState>, log0: seq<Notification>,
                              outcome: Outcome, after: seq<VariableState>, log1: seq<Notification>)
    requires IsMatrix(g) && |g| == |before| + 1
  {
    if autoSolve then SolveStep(g, errorFlag, before, log0, outcome, after, log1)
    else outcome == Done && after == before && log1 == log0
  }

  /** Solving twice with no change to the system in between (the second solve may start
      from variables whose locks differ, as long as their values and update functions are
      the ones the first solve left): the second solve rewrites the values already there,
      reports no change and calls no update function; it fails only if the first one failed
      for an over-constrained system. */
  lemma SolveAgainChangesNothing(g: Grid, errorFlag: bool, before: seq<VariableState>, log0: seq<Notification>,
                                 outcome: Outcome, after: seq<VariableState>, log1: seq<Notification>,
                                 mid: seq<VariableState>,
                                 outcome2: Outcome, after2: seq<VariableState>, log2: seq<Notification>)
    requires IsMatrix(g) && |g| == |before| + 1
    requires SolveStep(g, errorFlag, before, log0, outcome, after, log1)
    requires |mid| == |before| && Values(mid) == Values(after)
    requires SolveStep(g, errorFlag, mid, log1, outcome2, after2, log2)
    ensures after2 == mid && log2 == log1
    ensures outcome2 == Done || outcome2 == outcome == OverConstrainedFailure
  {
    if !(errorFlag && OverConstrained(Rref(g))) {
      assert forall i :: 0 <= i < |mid| ==> after2[i] == mid[i];
      assert Values(after2) == Values(mid);
      assert Changed(Values(mid), Values(after2)) == {};
    }
  }

  /** Constraint c's left side for the values x, over its first k variables:
      c's coefficient of variable 0 times x[0] + ... + that of variable k-1 times x[k-1]. */
  function Dot(c: ConstraintState, x: seq<real>, k: nat): real
    requires k <= |x|
  {
    if k == 0 then 0.0 else Dot(c, x, k - 1) + Coefficient(c, k - 1) * x[k - 1]
  }

  /** The values x (one per variable) keep constraint c: its left side equals its sum. */
  predicate Satisfied(c: ConstraintState, x: seq<real>)
  {
    Dot(c, x, |x|) == c.sum
  }

  /** A row of a grid holding c's coefficients sums, for x, to c's left side for values
      that agree with x. */
  lemma {:induction false} RowSumIsDot(g: Grid, r: nat, x: seq<real>, c: ConstraintState, y: seq<real>, k: nat)
    requires IsMatrix(g) && r < Height(g) && |x| == |g| && k < |g| && k <= |y|
    requires forall i :: 0 <= i < k ==> g[i][r] == Coefficient(c, i) && y[i] == x[i]
    ensures RowSum(g, r, x, 0, k) == Dot(c, y, k)
    decreases k
  {
    if k > 0 {
      RowSumIsDot(g, r, x, c, y, k - 1);
    }
  }

  /** Row r of the system's matrix holds for x exactly when r's constraint is kept by the
      variables' values in x. */
  lemma HoldsIsSatisfied(n: nat, table: map<ConstraintId, ConstraintState>, list: seq<ConstraintId>,
                         r: nat, x: seq<real>, y: seq<real>)
    requires forall k :: 0 <= k < |list| ==> list[k] in table
    requires r < |list| && |x| == n + 1 && |y| == n
    requires forall i :: 0 <= i < n ==> y[i] == x[i]
    ensures Holds(MatrixOf(n, table, list), r, x) <==> Satisfied(table[list[r]], y)
  {
    RowSumIsDot(MatrixOf(n, table, list), r, x, table[list[r]], y, n);
  }

  /** Values that agree with what `solve()` computes for the system keep every listed
      constraint exactly when every row the reduction turned into a zero row has an exactly
      zero sum left; they keep them all when every row of the reduction has a pivot and the
      sum column has none. */
  lemma SolutionSatisfies(table: map<ConstraintId, ConstraintState>, list: seq<ConstraintId>, y: seq<real>)
    requires forall k :: 0 <= k < |list| ==> list[k] in table
    requires forall i :: 0 <= i < |y| ==> y[i] == BackSub(Rref(MatrixOf(|y|, table, list)))[i]
    ensures (forall k :: 0 <= k < |list| ==> Satisfied(table[list[k]], y))
            <==> NoResidue(Rref(MatrixOf(|y|, table, list)))
    ensures |Pivots(MatrixOf(|y|, table, list))| == |list| && |y| !in Pivots(MatrixOf(|y|, table, list))
            ==> forall k :: 0 <= k < |list| ==> Satisfied(table[list[k]], y)
  {
    var g := MatrixOf(|y|, table, list);
    var x := BackSub(Rref(g));
    RrefIsEchelon(g);
    forall k | 0 <= k < |list|
      ensures Holds(g, k, x) <==> Satisfied(table[list[k]], y)
    {
      HoldsIsSatisfied(|y|, table, list, k, x, y);
    }
    SolveSatisfiesIffNoResidue(g);
    if |Pivots(g)| == |list| && |y| !in Pivots(g) {
      FullRankSolves(g);
    }
  }

  /** Unless a solve stops on an over-constrained system, the values it writes back are the
      ones `SolutionSatisfies` speaks of. */
  lemma SolvedValuesSatisfy(table: map<ConstraintId, ConstraintState>, list: seq<ConstraintId>, errorFlag: bool,
                            before: seq<VariableState>, log0: seq<Notification>,
                            outcome: Outcome, after: seq<VariableState>, log1: seq<Notification>)
    requires forall k :: 0 <= k < |list| ==> list[k] in table
    requires SolveStep(MatrixOf(|before|, table, list), errorFlag, before, log0, outcome, after, log1)
    requires outcome != OverConstrainedFailure
    ensures (forall k :: 0 <= k < |list| ==> Satisfied(table[list[k]], Values(after)))
            <==> NoResidue(Rref(MatrixOf(|before|, table, list)))
  {
    var g := MatrixOf(|before|, table, list);
    assert WrittenBack(before, after, BackSub(Rref(g)));
    SolutionSatisfies(table, list, Values(after));
  }

  /** Calling one more registered, not yet called update function keeps a log well formed. */
  lemma NotifyOneMore(log: seq<Notification>, vs: seq<VariableState>, ids: set<VariableId>, n: Notification)
    requires NotifiesWithin(log, vs, ids)
    requires n.variable in ids && n.variable < |vs| && vs[n.variable].hasHook && n.value == vs[n.variable].value
    requires n.variable !in Notified(log)
    ensures NotifiesWithin(log + [n], vs, ids)
    ensures Notified(log + [n]) == Notified(log) + {n.variable}
  {
    var extended := log + [n];
    assert extended[|log|].variable == n.variable;
    forall i | i in Notified(log)
      ensures i in Notified(extended)
    {
      var k :| 0 <= k < |log| && log[k].variable == i;
      assert extended[k].variable == i;
    }
  }

  class Solver {
    /** The solver's variable list, in creation order; a variable's index is its column. */
    var variables: seq<VariableState>
    /** Every constraint object created for this solver, listed or not. */
    var constraints: map<ConstraintId, ConstraintState>
    /** The solver's constraint list; each entry is a row of the matrix. */
    var constr: seq<ConstraintId>
    /** The id the next constraint object gets. */
    var nextConstraint: ConstraintId
    var autoSolve: bool
    var errorOnOverConstrained: bool
    /** Every call of an update function so far, in order. */
    var notifications: seq<Notification>

    ghost predicate Valid()
      reads this
    {
      && (forall id :: id in constraints ==> id < nextConstraint)
      && (forall k :: 0 <= k < |constr| ==> constr[k] in constraints)
      && (forall i :: 0 <= i < |variables| && variables[i].lock.Some? ==> variables[i].lock.value in constraints)
    }

    /** The augmented matrix of the current system. */
    ghost function Grid(): Grid
      reads this
      requires Valid()
    {
      MatrixOf(|variables|, constraints, constr)
    }

    /** A solver with no variables or constraints, auto-solve and the over-constrained error on. */
    constructor ()
      ensures Valid()
      ensures variables == [] && constraints == map[] && constr == [] && nextConstraint == 0
      ensures autoSolve && errorOnOverConstrained && notifications == []
    {
      variables := [];
      constraints := map[];
      constr := [];
      nextConstraint := 0;
      autoSolve := true;
      errorOnOverConstrained := true;
      notifications := [];
    }

    /** `getMatrix()`: fills a fresh (variables + 1) x constraints array, row by row. */
    method GetMatrix() returns (m: Matrix)
      requires Valid()
      ensures fresh(m) && fresh(m.data) && m.Valid() && m.Cells() == Grid()
    {
      var width, height := |variables| + 1, |constr|;
      var a := new real[width, height];
      for row := 0 to height
        invariant forall c, r :: 0 <= c < width && 0 <= r < row ==> a[c, r] == Grid()[c][r]
      {
        for column := 0 to width - 1
          invariant forall c, r :: 0 <= c < width && 0 <= r < row ==> a[c, r] == Grid()[c][r]
          invariant forall c :: 0 <= c < column ==> a[c, row] == Grid()[c][row]
        {
          a[column, row] := Coefficient(constraints[constr[row]], column);
        }
        a[width - 1, row] := constraints[constr[row]].sum;
      }
      m := new Matrix(a);
      SameGrid(m.Cells(), Grid());
    }

    /** `solve()`. */
    method Solve() returns (outcome: Outcome)
      requires Valid()
      modifies this
      ensures Valid()
      ensures constraints == old(constraints) && constr == old(constr) && nextConstraint == old(nextConstraint)
      ensures autoSolve == old(autoSolve) && errorOnOverConstrained == old(errorOnOverConstrained)
      ensures SolveStep(old(Grid()), errorOnOverConstrained, old(variables), old(notifications),
                        outcome, variables, notifications)
      ensures outcome != OverConstrainedFailure ==>
                ((forall k :: 0 <= k < |constr| ==> Satisfied(constraints[constr[k]], Values(variables)))
                 <==> NoResidue(Rref(old(Grid()))))
    {
      ghost var g, before, log0 := Grid(), variables, notifications;
      var m := GetMatrix();
      m.Rref();
      if errorOnOverConstrained {
        var over := m.IsOverConstrained();
        if over {
          return OverConstrainedFailure;
        }
      }
      var x := m.Solve();
      outcome := Publish(x);
      assert SolveStep(g, errorOnOverConstrained, before, log0, outcome, variables, notifications);
      if outcome != OverConstrainedFailure {
        SolvedValuesSatisfy(constraints, constr, errorOnOverConstrained, before, log0, outcome, variables, notifications);
      }
    }

    /** The end of `solve()`: writes the solution x back with `updateValue`, then calls the
        update functions of the variables that changed. */
    method Publish(x: array<real>) returns (outcome: Outcome)
      requires Valid() && x.Length > |variables|
      modifies this
      ensures Valid()
      ensures constraints == old(constraints) && constr == old(constr) && nextConstraint == old(nextConstraint)
      ensures autoSolve == old(autoSolve) && errorOnOverConstrained == old(errorOnOverConstrained)
      ensures WrittenBack(old(variables), variables, x[..])
      ensures NotifyStep(Changed(Values(old(variables)), Values(variables)), variables, old(notifications), outcome, notifications)
    {
      var changed := WriteBack(x);
      outcome := Notify(changed);
    }

    /** `if (solver.isAutoSolveEnabled()) solver.solve();`, the re-solve every mutating
        operation of a constraint or variable ends with. */
    method SolveIfEnabled() returns (outcome: Outcome)
      requires Valid()
      modifies this
      ensures Valid()
      ensures constraints == old(constraints) && constr == old(constr) && nextConstraint == old(nextConstraint)
      ensures autoSolve == old(autoSolve) && errorOnOverConstrained == old(errorOnOverConstrained)
      ensures SolveIfStep(old(autoSolve), old(Grid()), errorOnOverConstrained, old(variables), old(notifications),
                          outcome, variables, notifications)
      ensures |variables| == old(|variables|)
      ensures forall i :: 0 <= i < |variables| ==> variables[i] == old(variables[i]).(value := variables[i].value)
    {
      outcome := Done;
      if autoSolve {
        outcome := Solve();
      }
    }

    /** `solve()`'s write-back loop: `updateValue` on every variable, collecting those that changed. */
    method WriteBack(x: array<real>) returns (changed: set<VariableId>)
      requires Valid() && x.Length > |variables|
      modifies this
      ensures Valid()
      ensures WrittenBack(old(variables), variables, x[..])
      ensures changed == Changed(Values(old(variables)), Values(variables))
      ensures constraints == old(constraints) && constr == old(constr) && nextConstraint == old(nextConstraint)
      ensures autoSolve == old(autoSolve) && errorOnOverConstrained == old(errorOnOverConstrained)
      ensures notifications == old(notifications)
    {
      changed := {};
      for i := 0 to |variables|
        invariant Valid()
        invariant |variables| == old(|variables|)
        invariant forall j :: 0 <= j < |variables| ==>
          variables[j] == if j < i then old(variables[j]).(value := x[j]) else old(variables[j])
        invariant changed == set j | 0 <= j < i && Abs(x[j] - old(variables[j]).value) > VariableTolerance
        invariant constraints == old(constraints) && constr == old(constr) && nextConstraint == old(nextConstraint)
        invariant autoSolve == old(autoSolve) && errorOnOverConstrained == old(errorOnOverConstrained)
        invariant notifications == old(notifications)
      {
        var different := UpdateValue(i, x[i]);
        if different {
          changed := changed + {i};
        }
      }
    }

    /** `solve()`'s last statement: each changed variable's update function is called with its
        value.  The Java set has no defined order; this model goes by ascending column. */
    method Notify(changed: set<VariableId>) returns (outcome: Outcome)
      requires forall i :: i in changed ==> i < |variables|
      modifies this`notifications
      ensures NotifyStep(changed, variables, old(notifications), outcome, notifications)
    {
      ghost var log0, sent := notifications, [];
      for i := 0 to |variables|
        invariant notifications == log0 + sent
        invariant forall j :: j in changed && j < i ==> variables[j].hasHook
        invariant NotifiesWithin(sent, variables, changed)
        invariant forall j :: j in Notified(sent) <==> j in changed && j < i
        invariant changed == {} ==> sent == []
      {
        if i in changed {
          if !variables[i].hasHook {
            assert notifications[|log0|..] == sent;
            return NullHookFailure;
          }
          var n := Notification(i, variables[i].value);
          NotifyOneMore(sent, variables, changed, n);
          notifications, sent := notifications + [n], sent + [n];
        }
      }
      assert notifications[|log0|..] == sent;
      return Done;
    }

    /** `Variable.updateValue(value)`: stores the value and reports whether it moved by more
        than the variable tolerance; it neither solves nor notifies. */
    method UpdateValue(v: VariableId, value: real) returns (different: bool)
      requires Valid() && v < |variables|
      modifies this
      ensures Valid()
      ensures variables == old(variables)[v := old(variables[v]).(value := value)]
      ensures different <==> Abs(value - old(variables[v].value)) > VariableTolerance
      ensures constraints == old(constraints) && constr == old(constr) && nextConstraint == old(nextConstraint)
      ensures autoSolve == old(autoSolve) && errorOnOverConstrained == old(errorOnOverConstrained)
      ensures notifications == old(notifications)
    {
      different := Abs(value - variables[v].value) > VariableTolerance;
      variables := variables[v := variables[v].(value := value)];
    }

    /** `isOverConstrained()`: reduces a fresh matrix; over-constrained exactly when the sum
        column is a pivot column of the reduction. */
    method IsOverConstrained() returns (over: bool)
      requires Valid()
      ensures over == OverConstrained(Rref(Grid()))
      ensures over <==> |variables| in Pivots(Grid())
    {
      var m := GetMatrix();
      m.Rref();
      over := m.IsOverConstrained();
      RrefDiagnostics(Grid());
    }

    /** `isUnderConstrained()`: reduces a fresh matrix; under-constrained exactly when fewer
        rows than variables survive the reduction. */
    method IsUnderConstrained() returns (under: bool)
      requires Valid()
      ensures under == UnderConstrained(Rref(Grid()))
      ensures under <==> Rank(Rref(Grid()), |constr|) < |variables|
    {
      var m := GetMatrix();
      m.Rref();
      under := m.IsUnderConstrained();
    }

    /** `setErrorOnOverConstrained(error)`. */
    method SetErrorOnOverConstrained(error: bool)
      modifies this
      ensures errorOnOverConstrained == error
      ensures variables == old(variables) && constraints == old(constraints) && constr == old(constr)
      ensures nextConstraint == old(nextConstraint) && autoSolve == old(autoSolve)
      ensures notifications == old(notifications)
    {
      errorOnOverConstrained := error;
    }

    /** `setAutoSolve(autoSolve)`. */
    method SetAutoSolve(enabled: bool)
      modifies this
      ensures autoSolve == enabled
      ensures variables == old(variables) && constraints == old(constraints) && constr == old(constr)
      ensures nextConstraint == old(nextConstraint) && errorOnOverConstrained == old(errorOnOverConstrained)
      ensures notifications == old(notifications)
    {
      autoSolve := enabled;
    }
  }
}
