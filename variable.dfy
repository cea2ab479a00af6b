/**
  Variable.java: a value the solver solves for, with an optional lock (a
  constraint pinning the value) and an optional update function.
*/
module Variables {
  import opened Numbers
  import opened Echelon
  import opened Tables
  import opened Solving
  import opened Solutions
  import Builders
  import Constraints

  /** The constraint `1.0 * v = value` with which `lock()` pins a variable. */
  function Pin(v: VariableId, value: real): (c: ConstraintState)
    ensures Coefficient(c, v) == 1.0 && c.sum == value
    ensures forall w :: w != v ==> Coefficient(c, w) == 0.0
  {
    ConstraintState(map[v := 1.0], value)
  }

  /** A pin's left side for values x reads the pinned variable's value, when it is among
      the first k variables. */
  lemma {:induction false} DotOfPin(v: VariableId, value: real, x: seq<real>, k: nat)
    requires k <= |x|
    ensures Dot(Pin(v, value), x, k) == if v < k then x[v] else 0.0
    decreases k
  {
    if k > 0 {
      DotOfPin(v, value, x, k - 1);
    }
  }

  /** What `lock()` promises, that other constraints do not change a locked variable: a
      solve of a system that lists a pin for v writes the pinned value into v, whenever the
      reduction leaves no residue. */
  lemma PinKeepsValue(table: map<ConstraintId, ConstraintState>, list: seq<ConstraintId>, errorFlag: bool,
                      before: seq<VariableState>, log0: seq<Notification>,
                      outcome: Outcome, after: seq<VariableState>, log1: seq<Notification>,
                      k: nat, v: VariableId, value: real)
    requires forall j :: 0 <= j < |list| ==> list[j] in table
    requires k < |list| && table[list[k]] == Pin(v, value) && v < |before|
    requires SolveStep(MatrixOf(|before|, table, list), errorFlag, before, log0, outcome, after, log1)
    requires NoResidue(Rref(MatrixOf(|before|, table, list)))
    ensures after[v].value == value
  {
    SolvedConstraintHolds(table, list, errorFlag, before, log0, outcome, after, log1, k);
    PinnedValue(table[list[k]], Values(after), v, value);
  }

  /** The solve of `lock()` keeps the value: when the system lists a pin of v's current
      value (`Lock` appends it), the solve behind the auto-solve check leaves v at that
      value whenever the reduction leaves no residue. */
  lemma LockKeepsValue(autoSolve: bool, table: map<ConstraintId, ConstraintState>, list: seq<ConstraintId>,
                       errorFlag: bool, before: seq<VariableState>, log0: seq<Notification>,
                       outcome: Outcome, after: seq<VariableState>, log1: seq<Notification>,
                       k: nat, v: VariableId)
    requires forall j :: 0 <= j < |list| ==> list[j] in table
    requires v < |before| && k < |list| && table[list[k]] == Pin(v, before[v].value)
    requires SolveIfStep(autoSolve, MatrixOf(|before|, table, list), errorFlag, before, log0, outcome, after, log1)
    ensures NoResidue(Rref(MatrixOf(|before|, table, list))) ==> after[v].value == before[v].value
  {
    if autoSolve && NoResidue(Rref(MatrixOf(|before|, table, list))) {
      PinKeepsValue(table, list, errorFlag, before, log0, outcome, after, log1, k, v, before[v].value);
    }
  }

  /** Each listed constraint holds for the values a solve leaves no residue for. */
  lemma SolvedConstraintHolds(table: map<ConstraintId, ConstraintState>, list: seq<ConstraintId>, errorFlag: bool,
                              before: seq<VariableState>, log0: seq<Notification>,
                              outcome: Outcome, after: seq<VariableState>, log1: seq<Notification>, k: nat)
    requires forall j :: 0 <= j < |list| ==> list[j] in table
    requires k < |list|
    requires SolveStep(MatrixOf(|before|, table, list), errorFlag, before, log0, outcome, after, log1)
    requires NoResidue(Rref(MatrixOf(|before|, table, list)))
    ensures |after| == |before| && Satisfied(table[list[k]], Values(after))
  {
    var g := MatrixOf(|before|, table, list);
    SolveSatisfiesIffNoResidue(g);
    assert WrittenBack(before, after, BackSub(Rref(g)));
    SolvedValuesSatisfy(table, list, errorFlag, before, log0, outcome, after, log1);
  }

  /** Values that keep a pin give the pinned variable the pinned value. */
  lemma PinnedValue(c: ConstraintState, x: seq<real>, v: VariableId, value: real)
    requires c == Pin(v, value) && v < |x| && Satisfied(c, x)
    ensures x[v] == value
  {
    DotOfPin(v, value, x, |x|);
  }

  /** The first pass of `rref` on a pin v = 5 listed before the constraint 1.0*v = 0: the
      tie in column 0 goes to the later row, which is swapped up and cleared below. */
  lemma PinConflictFirstPivot()
    ensures var g := [[1.0, 1.0], [5.0, 0.0]];
      && IsMatrix(g) && PivotRow(g, 0, 0, 2) == 1 && PivotStep(g, 0, 0, 1) == [[1.0, 0.0], [0.0, 5.0]]
  {
    var g := [[1.0, 1.0], [5.0, 0.0]];
    var s := SwapRows(g, 0, 1);
    assert s[0] == [1.0, 1.0] && s[1] == [0.0, 5.0];
    var t := SubtractPivot(s, 0, 0);
    assert t[0] == [1.0, 0.0] && t[1] == [0.0, 5.0];
    var u := ReduceRow(t, 0, 0);
    assert u[0] == [1.0, 0.0] && u[1] == [0.0, 5.0];
  }

  /** The second pass: the pin's row, now 0 = 5, takes the sum column as pivot and becomes 0 = 1. */
  lemma PinConflictSecondPivot(g: Grid)
    requires g == [[1.0, 0.0], [0.0, 5.0]]
    ensures IsMatrix(g) && PivotRow(g, 1, 1, 2) == 1 && PivotStep(g, 1, 1, 1) == [[1.0, 0.0], [0.0, 1.0]]
  {
    var t := SubtractPivot(SwapRows(g, 1, 1), 1, 1);
    assert t[0] == g[0] && t[1] == g[1];
    var u := ReduceRow(t, 1, 1);
    assert u[0] == [1.0, 0.0] && u[1] == [0.0, 1.0];
  }

  /** `rref` on that system: the pin's row ends as 0 = 1. */
  lemma PinConflictRref()
    ensures var g := [[1.0, 1.0], [5.0, 0.0]];
      && IsMatrix(g) && Rref(g) == [[1.0, 0.0], [0.0, 1.0]]
  {
    var g := [[1.0, 1.0], [5.0, 0.0]];
    PinConflictFirstPivot();
    var g1 := PivotStep(g, 0, 0, 1);
    PinConflictSecondPivot(g1);
    var g2 := PivotStep(g1, 1, 1, 1);
    assert RrefFrom(g2, 2, 2) == g2;
    assert RrefFrom(g1, 1, 1) == g2;
  }

  /** The pin does not hold when a residue is left: v is locked at 5 and the constraint
      1.0*v = 0 is listed after the pin.  The reduction is over-constrained, and with the
      error flag off `solve()` writes v = 0. */
  lemma LaterConstraintOverridesPin()
    ensures var g := [[1.0, 1.0], [5.0, 0.0]];
      && IsMatrix(g) && Rref(g) == [[1.0, 0.0], [0.0, 1.0]]
      && OverConstrained(Rref(g)) && !NoResidue(Rref(g)) && BackSub(Rref(g)) == [0.0, 0.0]
  {
    PinConflictRref();
    PinConflictBackSub([[1.0, 0.0], [0.0, 1.0]]);
    assert ZeroRow([[1.0, 0.0], [0.0, 1.0]], 1);
  }

  /** `solve()` on the reduced system: the row 0 = 1 is skipped, and v = 0 - 0. */
  lemma PinConflictBackSub(r: Grid)
    requires r == [[1.0, 0.0], [0.0, 1.0]]
    ensures IsMatrix(r) && BackSub(r) == [0.0, 0.0]
  {
    assert ZeroRow(r, 1) && !ZeroRow(r, 0);
    assert BackSubFrom(r, 1) == [0.0, 0.0];
    assert LeadFrom(r, 0, 0) == 0;
    assert RowSum(r, 0, [0.0, 0.0], 1, 2) == 0.0;
  }

  /** `new Variable(solver, name, value)`: an unlocked variable without update function,
      appended to the solver's variable list, which makes it the last matrix column. */
  method NewVariable(s: Solver, name: string, value: real) returns (v: VariableId)
    requires s.Valid()
    modifies s
    ensures s.Valid()
    ensures v == old(|s.variables|) && s.variables == old(s.variables) + [VariableState(name, value, None, false)]
    ensures s.constraints == old(s.constraints) && s.constr == old(s.constr) && s.nextConstraint == old(s.nextConstraint)
    ensures s.notifications == old(s.notifications)
    ensures s.autoSolve == old(s.autoSolve) && s.errorOnOverConstrained == old(s.errorOnOverConstrained)
  {
    v := |s.variables|;
    s.variables := s.variables + [VariableState(name, value, None, false)];
  }

  /** `onUpdate(updateFunction)`: registers (or, with null, removes) the update function. */
  method OnUpdate(s: Solver, v: VariableId, hook: bool)
    requires s.Valid() && v < |s.variables|
    modifies s
    ensures s.Valid()
    ensures s.variables == old(s.variables)[v := old(s.variables[v]).(hasHook := hook)]
    ensures s.constraints == old(s.constraints) && s.constr == old(s.constr) && s.nextConstraint == old(s.nextConstraint)
    ensures s.notifications == old(s.notifications)
    ensures s.autoSolve == old(s.autoSolve) && s.errorOnOverConstrained == old(s.errorOnOverConstrained)
  {
    s.variables := s.variables[v := s.variables[v].(hasHook := hook)];
  }

  /** `lock()`: a locked variable stays as it is.  An unlocked one is pinned to its current
      value by a new constraint built with the builder, which lists it and re-solves when
      auto-solve is on; if that solve fails the constraint stays listed but the variable
      stays unlocked.  `LockKeepsValue` shows that the solve keeps the pinned value. */
  method Lock(s: Solver, v: VariableId) returns (outcome: Outcome)
    requires s.Valid() && v < |s.variables|
    modifies s
    ensures s.Valid()
    ensures |s.variables| == old(|s.variables|)
    ensures s.autoSolve == old(s.autoSolve) && s.errorOnOverConstrained == old(s.errorOnOverConstrained)
    ensures old(s.variables[v].lock).Some? ==>
      && outcome == Done && s.variables == old(s.variables) && s.notifications == old(s.notifications)
      && s.constraints == old(s.constraints) && s.constr == old(s.constr) && s.nextConstraint == old(s.nextConstraint)
    ensures old(s.variables[v].lock).None? ==>
      var id := old(s.nextConstraint);
      && id !in old(s.constr)
      && s.nextConstraint == id + 1
      && s.constraints == old(s.constraints)[id := Pin(v, old(s.variables[v].value))]
      && s.constr == old(s.constr) + [id]
      && s.variables[v].lock == (if outcome == Done then Some(id) else None)
      && SolveIfStep(s.autoSolve, s.Grid(), s.errorOnOverConstrained, old(s.variables), old(s.notifications),
                     outcome, s.variables[v := s.variables[v].(lock := None)], s.notifications)
  {
    if s.variables[v].lock.Some? {
      return Done;
    }
    var id := CreatePin(s, v, s.variables[v].value);
    ghost var before, log0 := s.variables, s.notifications;
    outcome := Builders.Build(s, id);
    ghost var g, built, log1 := s.Grid(), s.variables, s.notifications;
    assert SolveIfStep(s.autoSolve, g, s.errorOnOverConstrained, before, log0, outcome, built, log1);
    if outcome != Done {
      assert built[v := built[v].(lock := None)] == built;
      return;
    }
    s.variables := s.variables[v := s.variables[v].(lock := Some(id))];
    assert s.Grid() == g;
    assert s.variables[v := s.variables[v].(lock := None)] == built;
  }

  /** The builder chain `create(solver).var(v, 1.0).sum(value)` of `lock()`, before `build()`:
      a new pin constraint the solver does not list yet. */
  method CreatePin(s: Solver, v: VariableId, value: real) returns (id: ConstraintId)
    requires s.Valid() && v < |s.variables|
    modifies s
    ensures s.Valid()
    ensures id == old(s.nextConstraint) && id !in old(s.constr) && s.nextConstraint == id + 1
    ensures s.constraints == old(s.constraints)[id := Pin(v, value)]
    ensures s.constr == old(s.constr) && s.variables == old(s.variables) && s.notifications == old(s.notifications)
    ensures s.autoSolve == old(s.autoSolve) && s.errorOnOverConstrained == old(s.errorOnOverConstrained)
  {
    id := Builders.Create(s);
    Builders.Var(s, id, v, 1.0);
    Builders.Sum(s, id, value);
    assert s.constraints[id] == Pin(v, value);
  }

  /** `unlock()`: removes the lock constraint from the solver's list, if there is one, and
      forgets it; nothing is re-solved. */
  method Unlock(s: Solver, v: VariableId)
    requires s.Valid() && v < |s.variables|
    modifies s
    ensures s.Valid()
    ensures s.variables == old(s.variables)[v := old(s.variables[v]).(lock := None)]
    ensures s.constr == match old(s.variables[v].lock)
                        case Some(id) => RemoveFirst(old(s.constr), id)
                        case None => old(s.constr)
    ensures s.constraints == old(s.constraints) && s.nextConstraint == old(s.nextConstraint)
    ensures s.notifications == old(s.notifications)
    ensures s.autoSolve == old(s.autoSolve) && s.errorOnOverConstrained == old(s.errorOnOverConstrained)
  {
    if s.variables[v].lock.Some? {
      Constraints.Delete(s, s.variables[v].lock.value);
      s.variables := s.variables[v := s.variables[v].(lock := None)];
    }
  }

  /** The solver's list while `setValue` pins the variable: without the previous lock, with
      the new pin id at the end. */
  function PinnedList(list: seq<ConstraintId>, lock: Option<ConstraintId>, id: ConstraintId): (r: seq<ConstraintId>)
    ensures |r| > 0 && r[|r| - 1] == id
    ensures forall x :: x in r ==> x in list || x == id
  {
    (match lock case Some(previous) => RemoveFirst(list, previous) case None => list) + [id]
  }

  /** `setValue(value)`: always stores the value.  A change within tolerance does nothing else;
      a real change re-pins the variable (RepinStep). */
  method SetValue(s: Solver, v: VariableId, value: real) returns (outcome: Outcome)
    requires s.Valid() && v < |s.variables|
    modifies s
    ensures s.Valid()
    ensures s.autoSolve == old(s.autoSolve) && s.errorOnOverConstrained == old(s.errorOnOverConstrained)
    ensures Abs(value - old(s.variables[v].value)) <= VariableTolerance ==>
      && outcome == Done
      && s.variables == old(s.variables)[v := old(s.variables[v]).(value := value)]
      && s.constraints == old(s.constraints) && s.constr == old(s.constr) && s.nextConstraint == old(s.nextConstraint)
      && s.notifications == old(s.notifications)
    ensures Abs(value - old(s.variables[v].value)) > VariableTolerance ==>
      RepinStep(old(s.variables)[v := old(s.variables[v]).(value := value, lock := None)], v, value,
                old(s.variables[v].lock), old(s.variables[v].hasHook),
                old(s.constraints), old(s.constr), old(s.nextConstraint), old(s.notifications),
                s.autoSolve, s.errorOnOverConstrained,
                outcome, s.variables, s.constraints, s.constr, s.nextConstraint, s.notifications)
  {
    var oldValue := s.variables[v].value;
    s.variables := s.variables[v := s.variables[v].(value := value)];
    if Abs(value - oldValue) <= VariableTolerance {
      return Done;
    }
    assert s.variables[v := s.variables[v].(lock := None)]
        == old(s.variables)[v := old(s.variables[v]).(value := value, lock := None)];
    outcome := Repin(s, v);
  }

  /** The update-function call that ends `setValue(value)`: made only after a solve that
      did not fail, and only when there is an update function. */
  function HookCall(outcome: Outcome, hasHook: bool, v: VariableId, value: real): seq<Notification>
  {
    if outcome == Done && hasHook then [Notification(v, value)] else []
  }

  /** What `setValue(value)` does to the solver on a real change.  The variables start as
      before (the value stored, the variable unlocked), with lock and hook the variable had;
      the constraint table, list, next constraint id and log start as table0, list0, next0
      and log0.  A new pin constraint for the value replaces an existing lock at the end of
      the list; when auto-solve is on the pinned system is solved once (the second solve in
      the Java code changes nothing); the pin is lifted again unless the variable was locked,
      in which case it becomes the lock; and the update function, if any, is called last with
      the value.  An exception from the pinned solve leaves the pin listed, the variable
      unlocked, and calls no update function. */
  ghost predicate RepinStep(before: seq<VariableState>, v: VariableId, value: real, lock: Option<ConstraintId>, hasHook: bool,
                            table0: map<ConstraintId, ConstraintState>, list0: seq<ConstraintId>,
                            next0: ConstraintId, log0: seq<Notification>,
                            autoSolve: bool, errorFlag: bool,
                            outcome: Outcome, vs: seq<VariableState>, table: map<ConstraintId, ConstraintState>,
                            list: seq<ConstraintId>, next: ConstraintId, log: seq<Notification>)
    requires v < |before| && forall k :: 0 <= k < |list0| ==> list0[k] in table0
  {
    var id := next0;
    var pinned := PinnedList(list0, lock, id);
    var hook := HookCall(outcome, hasHook, v, value);
    && next == id + 1
    && table == table0[id := Pin(v, value)]
    && |vs| == |before|
    && (outcome == Done && lock.None? ==> list == list0 && vs[v].lock == None)
    && (outcome == Done && lock.Some? ==> list == pinned && vs[v].lock == Some(id))
    && (outcome != Done ==> list == pinned && vs[v].lock == None)
    && |hook| <= |log|
    && log[|log| - |hook|..] == hook
    && SolveIfStep(autoSolve, MatrixOf(|before|, table, pinned), errorFlag, before,
                   log0, outcome, vs[v := vs[v].(lock := None)], log[..|log| - |hook|])
  }

  /** `setValue(value)` on a real change ends with the variable at the new value: the value
      is stored before the pinned solve, and that solve keeps it whenever the pinned system
      leaves no residue. */
  lemma RepinKeepsValue(before: seq<VariableState>, v: VariableId, value: real, lock: Option<ConstraintId>, hasHook: bool,
                        table0: map<ConstraintId, ConstraintState>, list0: seq<ConstraintId>,
                        next0: ConstraintId, log0: seq<Notification>,
                        autoSolve: bool, errorFlag: bool,
                        outcome: Outcome, vs: seq<VariableState>, table: map<ConstraintId, ConstraintState>,
                        list: seq<ConstraintId>, next: ConstraintId, log: seq<Notification>)
    requires v < |before| && before[v].value == value && forall k :: 0 <= k < |list0| ==> list0[k] in table0
    requires var pinned := PinnedList(list0, lock, next0); forall k :: 0 <= k < |pinned| ==> pinned[k] in table
    requires RepinStep(before, v, value, lock, hasHook, table0, list0, next0, log0, autoSolve, errorFlag,
                       outcome, vs, table, list, next, log)
    requires NoResidue(Rref(MatrixOf(|before|, table, PinnedList(list0, lock, next0))))
    ensures |vs| == |before| && vs[v].value == value
  {
    var pinned := PinnedList(list0, lock, next0);
    var hook := HookCall(outcome, hasHook, v, value);
    var solved := vs[v := vs[v].(lock := None)];
    assert table[next0] == Pin(v, value);
    assert SolveIfStep(autoSolve, MatrixOf(|before|, table, pinned), errorFlag, before,
                       log0, outcome, solved, log[..|log| - |hook|]);
    LockKeepsValue(autoSolve, table, pinned, errorFlag, before, log0, outcome, solved, log[..|log| - |hook|], |pinned| - 1, v);
  }

  /** RepinStep from its parts, with the log as the solve left it (log1) followed by the
      update-function call. */
  lemma RepinStepOfParts(before: seq<VariableState>, v: VariableId, value: real, lock: Option<ConstraintId>, hasHook: bool,
                         table0: map<ConstraintId, ConstraintState>, list0: seq<ConstraintId>,
                         next0: ConstraintId, log0: seq<Notification>,
                         autoSolve: bool, errorFlag: bool,
                         outcome: Outcome, vs: seq<VariableState>, table: map<ConstraintId, ConstraintState>,
                         list: seq<ConstraintId>, next: ConstraintId, log: seq<Notification>, log1: seq<Notification>)
    requires v < |before| && forall k :: 0 <= k < |list0| ==> list0[k] in table0
    requires next == next0 + 1 && table == table0[next0 := Pin(v, value)] && |vs| == |before|
    requires outcome == Done && lock.None? ==> list == list0 && vs[v].lock == None
    requires outcome == Done && lock.Some? ==> list == PinnedList(list0, lock, next0) && vs[v].lock == Some(next0)
    requires outcome != Done ==> list == PinnedList(list0, lock, next0) && vs[v].lock == None
    requires log == log1 + HookCall(outcome, hasHook, v, value)
    requires forall c :: c in PinnedList(list0, lock, next0) ==> c in table
    requires SolveIfStep(autoSolve, MatrixOf(|before|, table, PinnedList(list0, lock, next0)), errorFlag, before,
                         log0, outcome, vs[v := vs[v].(lock := None)], log1)
    ensures RepinStep(before, v, value, lock, hasHook, table0, list0, next0, log0, autoSolve, errorFlag,
                      outcome, vs, table, list, next, log)
  {
    var hook := HookCall(outcome, hasHook, v, value);
    assert log[..|log| - |hook|] == log1;
  }

  /** The body of `setValue(value)` after a real change, once the value is stored. */
  method Repin(s: Solver, v: VariableId) returns (outcome: Outcome)
    requires s.Valid() && v < |s.variables|
    modifies s
    ensures s.Valid()
    ensures s.autoSolve == old(s.autoSolve) && s.errorOnOverConstrained == old(s.errorOnOverConstrained)
    ensures RepinStep(old(s.variables)[v := old(s.variables[v]).(lock := None)], v, old(s.variables[v].value),
                      old(s.variables[v].lock), old(s.variables[v].hasHook),
                      old(s.constraints), old(s.constr), old(s.nextConstraint), old(s.notifications),
                      s.autoSolve, s.errorOnOverConstrained,
                      outcome, s.variables, s.constraints, s.constr, s.nextConstraint, s.notifications)
  {
    var value, locked := s.variables[v].value, s.variables[v].lock.Some?;
    ghost var before := s.variables[v := s.variables[v].(lock := None)];
    ghost var log0, id := s.notifications, s.nextConstraint;
    ghost var pinned := PinnedList(s.constr, s.variables[v].lock, id);
    outcome := PinValue(s, v);
    ghost var mid, log1 := s.variables, s.notifications;
    if outcome == Done {
      RemoveFirstUndoesAppend(old(s.constr), id);
      FinishRepin(s, v, value, locked, id, before, log0);
    }
    RepinStepOfParts(before, v, value, old(s.variables[v].lock), old(s.variables[v].hasHook),
                     old(s.constraints), old(s.constr), id, log0, s.autoSolve, s.errorOnOverConstrained,
                     outcome, s.variables, s.constraints, s.constr, s.nextConstraint, s.notifications, log1);
  }

  /** `unlock()` and `lock()` at the start of a real change: the variable's pin for its
      stored value replaces its lock, and the system is solved once when auto-solve is on. */
  method PinValue(s: Solver, v: VariableId) returns (outcome: Outcome)
    requires s.Valid() && v < |s.variables|
    modifies s
    ensures s.Valid()
    ensures s.autoSolve == old(s.autoSolve) && s.errorOnOverConstrained == old(s.errorOnOverConstrained)
    ensures var id := old(s.nextConstraint);
      var pinned := PinnedList(old(s.constr), old(s.variables[v].lock), id);
      var before := old(s.variables)[v := old(s.variables[v]).(lock := None)];
      && s.nextConstraint == id + 1
      && s.constraints == old(s.constraints)[id := Pin(v, old(s.variables[v].value))]
      && s.constr == pinned
      && |s.variables| == |before|
      && s.variables[v].lock == (if outcome == Done then Some(id) else None)
      && s.variables[v].hasHook == old(s.variables[v].hasHook)
      && SolveIfStep(s.autoSolve, MatrixOf(|before|, s.constraints, pinned), s.errorOnOverConstrained, before,
                     old(s.notifications), outcome, s.variables[v := s.variables[v].(lock := None)], s.notifications)
  {
    ghost var pinned := PinnedList(s.constr, s.variables[v].lock, s.nextConstraint);
    Unlock(s, v);
    assert s.constr + [s.nextConstraint] == pinned;
    outcome := Lock(s, v);
  }

  /** The rest of a real change once the pin holds: `solve()` again when auto-solve is on
      (which rewrites the values the first solve left and calls no update function), then
      `unlock()` unless the variable was locked, then the update function with the value. */
  method FinishRepin(s: Solver, v: VariableId, value: real, locked: bool, ghost id: ConstraintId,
                     ghost before: seq<VariableState>, ghost log0: seq<Notification>)
    requires s.Valid() && v < |s.variables| && |before| == |s.variables|
    requires s.variables[v].lock == Some(id)
    requires s.autoSolve ==>
      SolveStep(s.Grid(), s.errorOnOverConstrained, before, log0, Done, s.variables[v := s.variables[v].(lock := None)], s.notifications)
    modifies s
    ensures s.Valid()
    ensures s.autoSolve == old(s.autoSolve) && s.errorOnOverConstrained == old(s.errorOnOverConstrained)
    ensures s.constraints == old(s.constraints) && s.nextConstraint == old(s.nextConstraint)
    ensures s.constr == if locked then old(s.constr) else RemoveFirst(old(s.constr), id)
    ensures s.variables == old(s.variables)[v := old(s.variables[v]).(lock := if locked then Some(id) else None)]
    ensures s.variables[v := s.variables[v].(lock := None)] == old(s.variables)[v := old(s.variables[v]).(lock := None)]
    ensures s.notifications == old(s.notifications) + if old(s.variables[v].hasHook) then [Notification(v, value)] else []
  {
    ghost var prior := s.variables[v := s.variables[v].(lock := None)];
    assert Values(prior) == Values(s.variables);
    var again := SolveAgain(s, before, log0, prior);
    if !locked {
      Unlock(s, v);
    }
    if s.variables[v].hasHook {
      s.notifications := s.notifications + [Notification(v, value)];
    }
  }

  /** `solve()` when auto-solve is on, right after a solve of the same system from before
      that ended normally and left prior, which differs from the current variables at most
      in their locks: nothing changes and no update function is called. */
  method SolveAgain(s: Solver, ghost before: seq<VariableState>, ghost log0: seq<Notification>,
                    ghost prior: seq<VariableState>) returns (outcome: Outcome)
    requires s.Valid() && |before| == |s.variables| == |prior| && Values(prior) == Values(s.variables)
    requires s.autoSolve ==> SolveStep(s.Grid(), s.errorOnOverConstrained, before, log0, Done, prior, s.notifications)
    modifies s
    ensures outcome == Done
    ensures s.variables == old(s.variables) && s.notifications == old(s.notifications)
    ensures s.constraints == old(s.constraints) && s.constr == old(s.constr) && s.nextConstraint == old(s.nextConstraint)
    ensures s.autoSolve == old(s.autoSolve) && s.errorOnOverConstrained == old(s.errorOnOverConstrained)
  {
    ghost var g, mid, log1 := s.Grid(), s.variables, s.notifications;
    outcome := s.SolveIfEnabled();
    if s.autoSolve {
      SolveAgainChangesNothing(g, s.errorOnOverConstrained, before, log0, Done, prior, log1, mid, outcome, s.variables, s.notifications);
    }
  }
}
