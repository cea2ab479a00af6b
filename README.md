# Linear constraint solver, modelled in Dafny

This project models the engine of the `swagrid.constraintsolver` package. It also models
the builder-style `Constraint` of `swagsolver`, which `Variable.lock()` uses.

The engine keeps two ordered lists:
- **Variables.** Each has a value, an optional lock constraint and an optional update
  function.
- **Constraints.** Each is a linear equation `c1*v1 + ... + cn*vn = sum`.

`Solver.solve()` works in these steps:
1. It lays the system out as an augmented matrix, stored column first. There is one column
   per variable, then a column of sums, and one row per constraint.
2. It reduces the matrix by Gaussian elimination with partial pivoting. If the reduced matrix
   is over-constrained and the error flag is set, it fails here.
3. It back-substitutes to get a value for every variable.
4. It writes every value back.
5. It calls the update function of every variable whose value moved by more than the tolerance.

When auto-solve is on, `setVar`, `setSum`, the builder's `build`, `Variable.lock` and
`Variable.setValue` re-solve the system after their change. `addVar`, `removeVar`, `delete`,
the constructors, `unlock` and `onUpdate` do not.

The values `solve()` writes back keep every listed constraint exactly when every row that the
reduction turned into a zero row has an exactly zero sum left (`Solving.SolutionSatisfies`).
Such a row with a sum within tolerance of zero, but not zero, is not reported as
over-constrained, and its equation is then not kept.

The model is in these files:

| file | module | models |
|---|---|---|
| `numbers.dfy` | `Numbers` | `Math.abs` and the four tolerance constants |
| `echelon.dfy` | `Echelon` | Matrix.java's algebra as functions on a column-first grid of `real`s, with the lemmas about it |
| `matrix.dfy` | `Matrices` | `class Matrix` over an `array2<real>`. `rref` and its helpers work in place; `solve` returns a fresh array and the diagnostics only read. Each method is proved to compute the matching `Echelon` function |
| `solutions.dfy` | `Solutions` | which equations the values of `rref` then `solve` satisfy, in the reduced and in the original matrix |
| `tables.dfy` | `Tables` | the entities as values: variable and constraint records, ids, outcomes, `getCoefficient`, `List.remove` |
| `solver.dfy` | `Solving` | `class Solver`: the variable and constraint lists, the flags, `getMatrix`, `solve`, the diagnostics |
| `constraint.dfy` | `Constraints` | the mutable `Constraint` of `swagrid.constraintsolver` |
| `builder.dfy` | `Builders` | the builder `Constraint.create(..).var(..).sum(..).build()` of `swagsolver` |
| `variable.dfy` | `Variables` | `Variable`: construction, `setValue`, `lock`, `unlock`, `onUpdate` |
| `scenario.dfy` | `Scenario` | the demo program: its first line as written, which stops with a failing solve, and its final system `v1 + v2 = 6`, `2*v1 + v2 = 8`, which it never reaches, worked through the model |

The solver owns every entity:
- A variable is its index in `Solver.variables`, which is also its matrix column.
- A constraint object is an id into `Solver.constraints`. The id survives `delete()`.
- `Solver.constr` is the solver's own constraint list, one matrix row per entry.
- Update functions are a `hasHook` flag per variable. Each call of one is appended to
  `Solver.notifications` as a `(variable, value)` record.
- An exception escaping an operation is an `Outcome`:
  - `OverConstrainedFailure` stands for `IllegalStateException`;
  - `NullHookFailure` stands for the `NullPointerException` from a missing update function;
  - `StackOverflowFailure` stands for the endless recursion of `addVar`.

Every Java `double` is an exact `real`. The tolerances are constants:
- 1e-6 for `Matrix`, `Variable` and the builder `Constraint`;
- 1e-7 for the mutable `Constraint`.

`Matrix.java:14-18` holds an unresolved merge between 1e-6 and 1e-7. The model takes the 1e-6
side, which the other two 1e-6 classes share.

Where the code and its comments or documentation differ, the model follows the code:
- **Pivot ties.** `getPivotRow` compares with `>=`, so on equal magnitudes it picks the last
  row, not the first. An all-zero column yields the last row.
- **Only below the pivot.** `rref` (Solver.java:38 calls the result "reduced row echelon form")
  clears entries only below each pivot. The result is row-echelon form with leading ones.
  Back-substitution in `solve()` makes up for the missing reduction above the pivots.
- **Notification order.** The changed variables are notified through a `HashSet`, so in no
  defined order. Contracts leave the order open; the implementation model goes by column.
- **No null check.** A changed variable without an update function makes `solve()` throw
  after the write-back. The demo program meets this on its first line: its variables have
  no update functions, and the solve inside `setSum(6.0)` moves v1 (`Scenario.DemoFirstLine`).
- **`addVar` on a missing variable** calls itself with the same arguments until the stack
  overflows. It changes nothing first.
- **What the diagnostics mean.** `isOverConstrained()` is documented to mean that no solution
  exists. That holds only for solutions that are 0.0 off the pivot columns
  (`Solutions.OverConstrainedHasNoSolution`). The equation 0.0000001*v = 1 is reported
  over-constrained, yet v = 10000000 solves it (`Solutions.SolvableOverConstrained`).
  `isUnderConstrained()` is documented to mean that several solutions exist. The equation
  0*v = 1 has no solution, yet it is reported under-constrained
  (`Solutions.UnsolvableUnderConstrained`).
- **`Variable.java:123`** calls `Constraint.create`. Only the `swagsolver` class has `create`,
  so `lock()` is modelled with that builder.

## Model

| member | source | states |
|---|---|---|
| Echelon.PivotRowIsLastMaximum | src/swagrid/constraintsolver/Matrix.java:147-166 | the pivot row lies in [leadRow, height); no row from leadRow down has a larger magnitude in the column; every row after it has a strictly smaller one, so ties go to the last row |
| Echelon.ZeroColumnPivotIsLastRow | src/swagrid/constraintsolver/Matrix.java:153-166 | a column that is zero from leadRow down yields the last row, height-1 |
| Echelon.SwapRowsExchanges | src/swagrid/constraintsolver/Matrix.java:174-184 | the two rows are exchanged in every column; every other row is unchanged |
| Echelon.SubtractPivotClearsColumn | src/swagrid/constraintsolver/Matrix.java:192-208 | rows up to the pivot row and the columns before the pivot column are unchanged; every later row has exactly 0 in the pivot column |
| Echelon.ReduceRowNormalizes | src/swagrid/constraintsolver/Matrix.java:217-223 | the leading entry becomes exactly 1; each entry from the lead column on becomes itself divided by the original leading value; earlier columns and other rows are unchanged |
| Echelon.SkipKeepsEchelon | src/swagrid/constraintsolver/Matrix.java:124-127 | a column whose pivot magnitude is within tolerance adds no pivot, and the echelon shape still holds one column further |
| Echelon.PivotKeepsEchelon | src/swagrid/constraintsolver/Matrix.java:127-136 | an accepted pivot (swap, subtract, reduce) adds a leading 1 with zeros below it in the next row, in a column after every earlier pivot |
| Echelon.RrefFromIsEchelon | src/swagrid/constraintsolver/Matrix.java:120-137 | running the rest of rref's loop from any state in echelon shape ends in row-echelon form, with the pivots it accepts appended |
| Echelon.RrefIsEchelon | src/swagrid/constraintsolver/Matrix.java:115-137 | rref keeps the shape and leaves row-echelon form. Pivot columns strictly increase and may include the sum column. Each pivot row leads with 1, has zeros below, and is near zero before its pivot. There are at most min(height, width) pivots |
| Echelon.LeadOfNonZeroRow | src/swagrid/constraintsolver/Matrix.java:56-59 | in a row that is not all zero, solve's lead search stops at a variable column whose entry is not zero, and every column before it is near zero |
| Echelon.EchelonZeroRow | src/swagrid/constraintsolver/Matrix.java:231-239 | on row-echelon form, allZeroes holds for a row exactly when it is below the last pivot or its pivot is the sum column |
| Echelon.SumColumnPivotIsLast | src/swagrid/constraintsolver/Matrix.java:120-137 | only the last pivot can be in the sum column |
| Echelon.EchelonOverConstrained | src/swagrid/constraintsolver/Matrix.java:80-92 | on row-echelon form, isOverConstrained holds exactly when the last pivot is the sum column |
| Echelon.EchelonRankBound | src/swagrid/constraintsolver/Matrix.java:99-109 | on row-echelon form, the equations isUnderConstrained counts are the pivot rows other than a sum-column pivot. There are at most width-1 of them and at most height |
| Echelon.RrefDiagnostics | src/swagrid/constraintsolver/Matrix.java:80-137 | after rref: the equation count is at most width-1 and at most height; the matrix is over-constrained exactly when the sum column became a pivot column |
| Echelon.EchelonLead | src/swagrid/constraintsolver/Matrix.java:56-59 | on row-echelon form, the lead solve finds in a pivot row is that row's pivot column |
| Echelon.BackSubStep | src/swagrid/constraintsolver/Matrix.java:53-70 | handling a non-zero row sets only its lead column. The value makes the row's equation hold from the lead on, using the values of the later columns |
| Echelon.BackSubUnledColumns | src/swagrid/constraintsolver/Matrix.java:45-73 | a column that is no non-zero row's lead keeps the 0.0 the result array starts with |
| Echelon.BackSubSumColumnIsZero | src/swagrid/constraintsolver/Matrix.java:45-73 | the sum-column entry of solve's result is always 0.0 |
| Echelon.BackSubKeepsLaterColumns | src/swagrid/constraintsolver/Matrix.java:51-71 | on row-echelon form, rows handled above a pivot row leave the columns from its pivot on unchanged |
| Echelon.BackSubSolvesEchelon | src/swagrid/constraintsolver/Matrix.java:45-73 | on row-echelon form, the final result satisfies each pivot row's equation counted from its pivot column on; `Solutions.BackSubSolvesPivotRow` extends this to the whole row |
| Echelon.AsWrittenRankExceedsColumns | src/swagrid/constraintsolver/Matrix.java:231-239 | with allZeroes' strict test, the grid `[[TOL, TOL], [0, 0]]` is left unchanged by rref (no pivot), yet counts two equations for one variable; with the inclusive test it counts none and is under-constrained |
| Solutions.BackSubOffPivots | src/swagrid/constraintsolver/Matrix.java:45-73 | on row-echelon form, solve's result is 0.0 in every column that is not a pivot column |
| Solutions.BackSubSolvesPivotRow | src/swagrid/constraintsolver/Matrix.java:45-73 | on row-echelon form, the result satisfies each pivot row's whole equation, the near-zero entries before the pivot included, when the pivot is a variable column |
| Solutions.BackSubSolvesReduced | src/swagrid/constraintsolver/Matrix.java:45-73 | on row-echelon form, the result satisfies every row exactly when every zero row has a sum of exactly 0.0 |
| Solutions.SwapKeepsSolutions | src/swagrid/constraintsolver/Matrix.java:174-184 | swapping two rows keeps exactly the vectors that satisfy every equation |
| Solutions.SubtractKeepsSolutions | src/swagrid/constraintsolver/Matrix.java:192-208 | in the middle of rref, subtractPivot keeps exactly the solutions among vectors that are 0.0 in the non-pivot columns before the current column, although it leaves the near-zero entries before the pivot column alone |
| Solutions.ReduceKeepsSolutions | src/swagrid/constraintsolver/Matrix.java:217-223 | in the middle of rref, reduceRow keeps exactly those solutions: the lead row's equation is divided by its non-zero lead |
| Solutions.PivotStepKeepsSolutions | src/swagrid/constraintsolver/Matrix.java:128-135 | an accepted pivot (swap, subtract, reduce) keeps those solutions |
| Solutions.RrefFromKeepsSolutions | src/swagrid/constraintsolver/Matrix.java:120-137 | the rest of rref's loop keeps exactly the solutions among vectors that are 0.0 off every pivot column, found so far or still to come |
| Solutions.RrefKeepsSolutions | src/swagrid/constraintsolver/Matrix.java:115-137 | a vector that is 0.0 off rref's pivot columns satisfies the reduced matrix exactly when it satisfies the original |
| Solutions.SolveSatisfiesIffNoResidue | src/swagrid/constraintsolver/Matrix.java:45-137 | the values of rref then solve satisfy every original equation exactly when every zero row of the reduced matrix has a sum of exactly 0.0; such a matrix is not over-constrained |
| Solutions.FullRankSolves | src/swagrid/constraintsolver/Matrix.java:45-137 | with a pivot in every row and none in the sum column, the values of rref then solve satisfy every original equation |
| Solutions.NearZeroRrefKeeps | src/swagrid/constraintsolver/Matrix.java:120-137 | rref leaves the one equation 0.0000001*v = 0.0000001 unchanged; its row counts as a zero row and the matrix is not over-constrained |
| Solutions.NearZeroSumIsDropped | src/swagrid/constraintsolver/Matrix.java:45-137 | for that equation, solve returns v = 0, which does not satisfy it, and the matrix is not reported as over-constrained |
| Solutions.ReducedZeroRowHolds | src/swagrid/constraintsolver/Matrix.java:80-92 | on row-echelon form, a vector that is 0.0 off the pivot columns satisfies a zero row exactly when that row's sum is 0.0 |
| Solutions.SolutionLeavesNoResidue | src/swagrid/constraintsolver/Matrix.java:115-137 | if a vector that is 0.0 off rref's pivot columns satisfies the system, then every zero row of the reduced matrix has a sum of exactly 0.0 |
| Solutions.OverConstrainedHasNoSolution | src/swagrid/constraintsolver/Solver.java:64-71 | a system whose reduction is over-constrained has no solution among the vectors that are 0.0 off the pivot columns |
| Solutions.NearZeroEquationDiagnostics | src/swagrid/constraintsolver/Solver.java:64-80 | for one equation a*v = 1 whose coefficient is within tolerance of zero, rref leaves the grid as it is, the sum column is the only pivot, and the system is reported both over- and under-constrained |
| Solutions.UnsolvableUnderConstrained | src/swagrid/constraintsolver/Solver.java:73-80 | 0*v = 1 has no solution at all, yet it is reported under-constrained (and over-constrained) |
| Solutions.SolvableOverConstrained | src/swagrid/constraintsolver/Solver.java:64-71 | 0.0000001*v = 1 is reported over-constrained, yet v = 10000000 solves it |
| Matrices.Matrix.constructor | src/swagrid/constraintsolver/Matrix.java:31-35 | the matrix wraps the given array without copying; width is the column count and height the length of the first column |
| Matrices.Matrix.AllZeroes | src/swagrid/constraintsolver/Matrix.java:231-239 | true exactly when every column except the sum column is within tolerance of zero in the row |
| Matrices.Matrix.IsOverConstrained | src/swagrid/constraintsolver/Matrix.java:80-92 | true exactly when some row is all zero in the variable columns and has a sum above tolerance |
| Matrices.Matrix.IsUnderConstrained | src/swagrid/constraintsolver/Matrix.java:99-109 | true exactly when fewer rows than width-1 are not all zero |
| Matrices.Matrix.Rref | src/swagrid/constraintsolver/Matrix.java:115-137 | the array ends as Echelon.Rref of its old contents, which is in row-echelon form for the accepted pivots. The loop keeps leadRow <= height and leadRow <= leadColumn |
| Matrices.Matrix.RrefStep | src/swagrid/constraintsolver/Matrix.java:124-136 | one loop iteration. leadRow advances by at most one and stays within height. The rest of the reduction is the same before and after |
| Matrices.Matrix.Pivot | src/swagrid/constraintsolver/Matrix.java:128-135 | the array ends as swap, then subtract, then reduce applied to its old contents |
| Matrices.Matrix.GetPivotRow | src/swagrid/constraintsolver/Matrix.java:147-166 | returns Echelon.PivotRow (the last row of largest magnitude) and a row in [leadRow, height); nothing is modified |
| Matrices.Matrix.SwapRows | src/swagrid/constraintsolver/Matrix.java:174-184 | the array ends as Echelon.SwapRows of its old contents |
| Matrices.Matrix.SubtractPivot | src/swagrid/constraintsolver/Matrix.java:192-208 | the array ends as Echelon.SubtractPivot of its old contents. The multiplier is taken before the row changes |
| Matrices.Matrix.ReduceRow | src/swagrid/constraintsolver/Matrix.java:217-223 | the array ends as Echelon.ReduceRow of its old contents. Going from the last column down divides every entry by the original leading value |
| Matrices.Matrix.Solve | src/swagrid/constraintsolver/Matrix.java:45-73 | returns a fresh array equal to Echelon.BackSub of the matrix, of width entries; the matrix is not modified |
| Matrices.Matrix.SolveRow | src/swagrid/constraintsolver/Matrix.java:51-70 | one outer-loop pass, bottom up. It turns the result for the rows below into the result including this row |
| Matrices.Matrix.SubtractKnown | src/swagrid/constraintsolver/Matrix.java:62-68 | the row's terms over the later columns, taken with the values already known, are subtracted from the lead entry; the other entries are unchanged |
| Matrices.Matrix.FindLead | src/swagrid/constraintsolver/Matrix.java:56-59 | the first column whose entry is not near zero; it is a variable column, and every column before it is near zero |
| Tables.Coefficient | src/swagrid/constraintsolver/Constraint.java:101-103 | the stored coefficient, or 0.0 for a variable without an entry. The builder class's getCoefficient at src/swagsolver/Constraint.java:58-60 is the same |
| Tables.RemoveFirst | src/swagrid/constraintsolver/Constraint.java:125 | List.remove drops only the first occurrence and keeps the order of the rest. The length falls by one exactly when the id was present; without it, nothing changes |
| Tables.RemoveFirstUndoesAppend | src/swagrid/constraintsolver/Variable.java:95-102 | removing a pin that was appended to a list without it gives back exactly the old list |
| Solving.MatrixOf | src/swagrid/constraintsolver/Solver.java:107-128 | a (variables+1) x constraints grid. Entry [c][r] is row r's constraint's coefficient for variable c, or 0.0 if absent. The last column holds the sums. Variable values play no part |
| Solving.Changed | src/swagrid/constraintsolver/Solver.java:50-58 | a variable is in the changed set exactly when its value moved by more than the variable tolerance |
| Solving.HoldsIsSatisfied | src/swagrid/constraintsolver/Solver.java:107-128 | row r of getMatrix's grid holds for some values exactly when those values keep row r's constraint: its coefficients times the values add up to its sum |
| Solving.SolutionSatisfies | src/swagrid/constraintsolver/Constraint.java:13 | values equal to those rref then solve compute for the system keep every listed constraint exactly when no zero row of the reduced matrix has a non-zero sum left; with a pivot in every row and none in the sum column they keep them all |
| Solving.SolvedValuesSatisfy | src/swagrid/constraintsolver/Solver.java:33-62 | unless a solve fails as over-constrained, the values it writes back keep every listed constraint exactly when no zero row of the reduced matrix has a non-zero sum left |
| Solving.SolveAgainChangesNothing | src/swagrid/constraintsolver/Solver.java:33-62 | solving the same system again writes back exactly the values already there and calls no update function. It fails only where the first solve failed as over-constrained |
| Solving.Solver.constructor | src/swagrid/constraintsolver/Solver.java:17-27 | empty lists; auto-solve and the over-constrained error are on |
| Solving.Solver.GetMatrix | src/swagrid/constraintsolver/Solver.java:107-128 | a fresh matrix whose contents are MatrixOf the current lists |
| Solving.Solver.Solve | src/swagrid/constraintsolver/Solver.java:33-62 | SolveStep. With the error flag set and an over-constrained reduced matrix, it fails before writing anything. Otherwise each variable takes its column of back-substitution on the reduced matrix. The changed variables' update functions are then called once each, with the new value. A changed variable without one makes the call fail. Lists and flags are unchanged. Unless it fails as over-constrained, the written values keep every listed constraint exactly when no zero row of the reduced matrix has a non-zero sum left (Solving.SolutionSatisfies) |
| Solving.Solver.Publish | src/swagrid/constraintsolver/Solver.java:50-61 | every variable takes its entry of the solution; then the changed ones are notified as in NotifyStep |
| Solving.Solver.SolveIfEnabled | src/swagrid/constraintsolver/Constraint.java:68 | a solve when auto-solve is on, otherwise nothing. Only variable values and the log change |
| Solving.Solver.WriteBack | src/swagrid/constraintsolver/Solver.java:53-58 | every variable i takes vars[i] and nothing else about it changes. The returned set is exactly the variables whose updateValue reported a change |
| Solving.Solver.Notify | src/swagrid/constraintsolver/Solver.java:60-61 | appends one call per changed variable, each with that variable's value and none twice. It succeeds exactly when every changed variable has an update function. Otherwise it fails and has called only changed variables' functions |
| Solving.Solver.UpdateValue | src/swagrid/constraintsolver/Variable.java:165-171 | always stores the value; reports a change exactly when it moved by more than the tolerance; no solve, no call |
| Solving.Solver.IsOverConstrained | src/swagrid/constraintsolver/Solver.java:67-71 | the reduced matrix is over-constrained, which holds exactly when the sum column is a pivot column; nothing changes. The documented meaning, no solution, is proved in `Solutions.OverConstrainedHasNoSolution` for solutions 0.0 off the pivot columns |
| Solving.Solver.IsUnderConstrained | src/swagrid/constraintsolver/Solver.java:76-80 | the reduced matrix has fewer non-zero rows than variables; nothing changes. This does not imply several solutions (`Solutions.UnsolvableUnderConstrained`) |
| Solving.Solver.SetErrorOnOverConstrained | src/swagrid/constraintsolver/Solver.java:85-87 | sets the flag; nothing else changes |
| Solving.Solver.SetAutoSolve | src/swagrid/constraintsolver/Solver.java:96 | sets the flag; nothing else changes |
| Constraints.ContainsVariable | src/swagrid/constraintsolver/Constraint.java:111-113 | true exactly when the variable has an entry larger than 1e-7 in magnitude; a stored zero or tiny coefficient is not contained |
| Constraints.NewConstraint | src/swagrid/constraintsolver/Constraint.java:35-38 | a new, empty constraint (sum 0.0) appended to the end of the solver's list; no solve |
| Constraints.AddVar | src/swagrid/constraintsolver/Constraint.java:47-57 | a contained variable's coefficient grows by the argument, without a solve. For a variable that is not contained, nothing changes and the call ends in stack overflow |
| Constraints.SetVar | src/swagrid/constraintsolver/Constraint.java:66-70 | the coefficient is inserted or replaced and other terms are unchanged; then a solve exactly when auto-solve is on |
| Constraints.RemoveVar | src/swagrid/constraintsolver/Constraint.java:78-81 | the entry is gone, so the coefficient reads 0.0; other terms are unchanged; no solve |
| Constraints.SetSum | src/swagrid/constraintsolver/Constraint.java:87-91 | the sum is set; then a solve exactly when auto-solve is on |
| Constraints.Delete | src/swagrid/constraintsolver/Constraint.java:125 | the first occurrence leaves the solver's list; the constraint itself and everything else are unchanged; no solve |
| Builders.ContainsVariable | src/swagsolver/Constraint.java:68-70 | true exactly when the variable has an entry larger than 1e-6 in magnitude |
| Builders.Create | src/swagsolver/Constraint.java:46-48 | a new, empty constraint that is not in the solver's list |
| Builders.Var | src/swagsolver/Constraint.java:125-128 | the coefficient is inserted or replaced; other terms are unchanged; no solve |
| Builders.Sum | src/swagsolver/Constraint.java:137-140 | the sum is set; no solve |
| Builders.Build | src/swagsolver/Constraint.java:148-152 | the constraint is appended to the end of the list, then the enlarged system is solved exactly when auto-solve is on. It stays listed even if that solve fails |
| Variables.Pin | src/swagrid/constraintsolver/Variable.java:123 | the lock constraint `1.0 * v = value`. Coefficient 1 for the variable, 0 for all others, and the value as its sum |
| Variables.NewVariable | src/swagrid/constraintsolver/Variable.java:59-64 | an unlocked variable with the given name and value, without an update function, appended as the last column; nothing else changes |
| Variables.OnUpdate | src/swagrid/constraintsolver/Variable.java:152-155 | registers or removes the update function; nothing else changes |
| Variables.Lock | src/swagrid/constraintsolver/Variable.java:119-126 | a locked variable is left as it is. An unlocked one gets exactly one new constraint, 1.0*v = current value, appended to the list. The system is re-solved when auto-solve is on. The variable is locked to the new constraint if that solve succeeds and stays unlocked if it fails |
| Variables.DotOfPin | src/swagrid/constraintsolver/Variable.java:123 | the pin's left side, summed over the first k variables, is the pinned variable's value when it is among them and 0 otherwise |
| Variables.PinnedValue | src/swagrid/constraintsolver/Variable.java:110-126 | values that satisfy a pin for v give v exactly the pinned value |
| Variables.PinKeepsValue | src/swagrid/constraintsolver/Variable.java:110-126 | a solve of a system that lists a pin for v writes the pinned value into v, whenever the reduced matrix has no zero row with a non-zero sum |
| Variables.LockKeepsValue | src/swagrid/constraintsolver/Variable.java:110-126 | the solve that follows lock() keeps the variable's current value, whenever the reduced matrix has no zero row with a non-zero sum |
| Variables.LaterConstraintOverridesPin | src/swagrid/constraintsolver/Solver.java:42-58 | with v pinned at 5 and the constraint 1.0*v = 0 listed after the pin, the reduction leaves the row 0 = 1 and solve writes v = 0, so the pin does not hold |
| Variables.CreatePin | src/swagrid/constraintsolver/Variable.java:123 | the builder chain before build(): a new pin constraint for the value that is not yet listed |
| Variables.Unlock | src/swagrid/constraintsolver/Variable.java:134-141 | a locked variable's lock constraint leaves the list (first occurrence) and the lock is cleared; an unlocked one is left as it is; no solve |
| Variables.SetValue | src/swagrid/constraintsolver/Variable.java:85-108 | always stores the value. A change within tolerance does nothing else. A real change runs RepinStep: a pin for the new value replaces the lock at the end of the list, and the pinned system is solved once when auto-solve is on. A variable that was unlocked ends unlocked, with the list exactly as before. A locked one ends locked to the new pin. The update function, if present, is called once with the new value, last. A failing solve leaves the pin listed and calls no update function |
| Variables.RepinKeepsValue | src/swagrid/constraintsolver/Variable.java:77-106 | after a real change, setValue leaves the variable at the new value, whenever the pinned system's reduced matrix has no zero row with a non-zero sum |
| Variables.Repin | src/swagrid/constraintsolver/Variable.java:92-106 | the body of a real change once the value is stored, stated as RepinStep |
| Variables.PinValue | src/swagrid/constraintsolver/Variable.java:95-99 | unlock then lock: the pin for the stored value replaces the old lock at the end of the list, and the pinned system is solved once |
| Variables.FinishRepin | src/swagrid/constraintsolver/Variable.java:100-105 | the second solve changes nothing. The pin is removed unless the variable was locked. The update function, if present, is called with the new value |
| Variables.SolveAgain | src/swagrid/constraintsolver/Variable.java:100 | a solve right after a successful solve of the same system succeeds, changes no variable and calls no update function |
| Scenario.DemoFirstPivot | src/swagrid/constraintsolver/Test.java:12-13 | on the demo grid, the first pivot is row 1 (the larger entry). Swap, subtract and reduce give the rows v1 + 0.5*v2 = 4 and 0.5*v2 = 2 |
| Scenario.DemoSecondPivot | src/swagrid/constraintsolver/Test.java:12-13 | the second pivot scales row 1 to v2 = 4 |
| Scenario.DemoRref | src/swagrid/constraintsolver/Test.java:12-13 | rref reduces the demo to v1 + 0.5*v2 = 4, v2 = 4 |
| Scenario.DemoBackSub | src/swagrid/constraintsolver/Test.java:12-13 | back-substitution on the reduced demo gives v1 = 2 and v2 = 4; the reduced demo is neither over- nor under-constrained |
| Scenario.DemoSystemSolves | src/swagrid/constraintsolver/Test.java:12-13 | the demo system is neither over- nor under-constrained, and solve finds v1 = 2, v2 = 4 |
| Scenario.DemoMatrix | src/swagrid/constraintsolver/Test.java:7-13 | getMatrix lays the demo's two constraints out as the demo grid |
| Scenario.DemoSolveStep | src/swagrid/constraintsolver/Solver.java:33-62 | a solve of the final demo system, from any starting values, sets v1 to 2 and v2 to 4 and does not fail as over-constrained. It fails for want of an update function exactly when a variable that moves has none |
| Scenario.OneEquation | src/swagrid/constraintsolver/Matrix.java:45-137 | the equation 1.0*v1 + b*v2 = s is already reduced, is not over-constrained, and solves to v1 = s, v2 = 0 |
| Scenario.OneEquationSolveStep | src/swagrid/constraintsolver/Solver.java:33-62 | from two variables at 0.0, v1 without an update function, a solve of that equation sets v1 = s and v2 = 0. It succeeds and calls nothing when s is within tolerance of 0.0, and fails for want of v1's update function otherwise |
| Scenario.OneConstraintMatrix | src/swagrid/constraintsolver/Solver.java:107-128 | getMatrix for two variables and one constraint is the one row of its two coefficients and its sum |
| Scenario.DemoFirstLine | src/swagrid/constraintsolver/Test.java:7-12 | with both variables at 0.0 and without update functions, the solves after setVar(v1, 1.0) and setVar(v2, 1.0) succeed and change nothing; the solve after setSum(6.0) sets v1 = 6 and fails for want of v1's update function, so Test.java:13-15 is never reached |

## Left out

- Floating point: every `double` is an exact `real`. Rounding, NaN and infinity are not modelled, nor is the numerical-stability reason for partial pivoting. Division by a pivot of exactly 0.0 cannot happen in the model, because pivots are above tolerance and leads are not near zero.
- Update functions: a registered `Consumer<Double>` is a `hasHook` flag, and each call is a logged `(variable, value)` record. What the function does is foreign code and is not modelled. That includes re-entrant calls back into the solver during notification.
- Solving.Solver.Notify: Java iterates a `HashSet` in no defined order. The contract leaves the order open; the method's body goes by ascending column.
- Java identity: variables and constraints are compared by identity (index or id). A variable passed to a constraint is one of its solver's variables (`v < |s.variables|`); Java can pass a variable of another solver, whose term `getMatrix` then ignores, and that case is not modelled. `Variable.equals` compares values within tolerance and has no `hashCode`. Its interplay with `LinkedHashMap` and `HashSet` is not modelled.
- `toString` in every class, the getters, and the static `varNum` counter behind generated names: names are parameters of `Variables.NewVariable`. `Variable(solver)` and `Variable(solver, name)` are that constructor with value 0.0.
- The expression classes under `src/solver` are not part of this model. They hold no solving logic and are not connected to the engine.
- The demo's printing is left out. As written the program never reaches it: the solve inside `setSum(6.0)` at Test.java:12 fails (`Scenario.DemoFirstLine`). Its final system is worked through in `Scenario` all the same.
- `int` overflow of list sizes and indices: sizes are unbounded `nat`s.
- Array aliasing: `Matrices.Matrix.constructor` wraps the caller's array, as Java does. Only `Solver.GetMatrix` creates matrices, always on a fresh array.
- Matrices.Matrix.constructor: requires at least one column. Java's `matrix[0].length` would throw on an empty array, but `getMatrix` always builds the sum column.
- Matrices.Matrix.GetPivotRow: the contract ties the result to `Echelon.PivotRow`. The maximum and tie-breaking facts are stated once, in `Echelon.PivotRowIsLastMaximum`, which the method calls.
- The two constraint classes share one record type and one table of constraint objects. The builder's `getCoefficient` and `delete` behave exactly like those of the mutable class, so `Tables.Coefficient` and `Constraints.Delete` stand for both. The builder's `Solver` type (`swagsolver.Solver`) is not part of this model; it is identified with the engine's solver.
- The Java methods return `this` for chaining; the model's methods return nothing, or the outcome, instead.
- Several Java method bodies are split into helper methods with their own contracts, to keep each proof small:
  - `Matrix.rref` into `RrefStep` and `Pivot`;
  - `Matrix.solve` into `SolveRow`, `SubtractKnown` and `FindLead`;
  - `Solver.solve` into `Publish`, `WriteBack` and `Notify`;
  - `Variable.setValue` into `Repin`, `PinValue`, `FinishRepin` and `SolveAgain`.
- The model uses a single tolerance test (finding below) for every zero test in `Matrix`: an entry counts as zero when its magnitude is `<= TOLERANCE`. The source uses `<` in `allZeroes` (Matrix.java:236) and in `solve`'s lead search (Matrix.java:58-59). The strict test of `allZeroes` is kept only in `Echelon.ZeroRowAsWritten` and `Echelon.RankAsWritten`; the strict lead search is not modelled.
- Matrices.Matrix.AllZeroes, Matrices.Matrix.FindLead, Matrices.Matrix.Solve, Matrices.Matrix.IsOverConstrained and Matrices.Matrix.IsUnderConstrained: each uses `<=` where the source uses `<`, as in the line above.
- Solving.Solver.Solve, Solving.Solver.IsOverConstrained and Solving.Solver.IsUnderConstrained: through those `Matrix` methods they use `<=` where the source uses `<`.
- Solving.Solver.Solve: the source promises that variables are kept in compliance with the constraints. The contract promises this only when no zero row of the reduced matrix keeps a non-zero sum. `rref` drops a row like the one equation `0.0000001*v = 0.0000001` (grid `[[0.0000001], [0.0000001]]`): it is not over-constrained, and the value 0 does not satisfy it (`Solutions.NearZeroSumIsDropped`).
- Variables.Lock: the source promises that other constraints do not change a locked variable. The model proves this only when the reduced matrix has no zero row with a non-zero sum (`Variables.PinKeepsValue`, `Variables.LockKeepsValue`). With the error flag off, a pin v = 5 listed before the constraint 1.0*v = 0 reduces to a row 0 = 1, and solve writes v = 0 (`Variables.LaterConstraintOverridesPin`).
- Variables.SetValue: for the same reason, the variable is proved to end at the new value only when the pinned system leaves no such row (`Variables.RepinKeepsValue`).

## Findings

| source | as written | input that shows it | evidently intended | confidence | as-written member | corrected member |
|---|---|---|---|---|---|---|
| src/swagrid/constraintsolver/Matrix.java:231-239 | `rref` (line 127) rejects a pivot when its magnitude is `<= TOLERANCE`. `allZeroes` (line 236) and `solve`'s lead search (lines 58-59) treat an entry as zero only when it is `< TOLERANCE`. An entry of exactly TOLERANCE is zero to the elimination but an equation to the diagnostics | the one-variable system `TOL*v = 0` listed twice, grid `[[TOL, TOL], [0, 0]]`. `rref` accepts no pivot, yet `isUnderConstrained` counts 2 equations for 1 variable and answers false | one zero test for all three places, so that the equation count never exceeds the variable columns and a row with no pivot is a zero row | not executed | Echelon.AsWrittenRankExceedsColumns | Echelon.RrefDiagnostics |
