/**
  The entities of the constraint engine as values.  A variable is identified by
  its index in the solver's variable list (which is also its matrix column), a
  constraint by the id the solver gave it when it was created; both stand for
  Java object identity.
*/
module Tables {
  import opened Numbers

  type VariableId = nat
  type ConstraintId = nat

  datatype Option<T> = None | Some(value: T)

  /** The fields of a `Variable`: its name, current value, lock constraint (null when
      unlocked), and whether an update function has been registered. */
  datatype VariableState = VariableState(name: string, value: real, lock: Option<ConstraintId>, hasHook: bool)

  /** The fields of a `Constraint`: the coefficient of each variable and the target sum. */
  datatype ConstraintState = ConstraintState(terms: map<VariableId, real>, sum: real)

  /** One call of a variable's update function, with the value it was passed. */
  datatype Notification = Notification(variable: VariableId, value: real)

  /** How an operation ended: normally, or with the exception the Java code lets escape
      (`IllegalStateException` for an over-constrained system, `NullPointerException`
      for a changed variable without update function, `StackOverflowError` from `addVar`). */
  datatype Outcome = Done | OverConstrainedFailure | NullHookFailure | StackOverflowFailure

  /** A constraint with no terms and sum 0.0, as both constraint classes initialise one. */
  const EmptyConstraint := ConstraintState(map[], 0.0)

  /** `getCoefficient(var)`: the stored coefficient, or 0.0 for a variable without entry. */
  function Coefficient(c: ConstraintState, v: VariableId): (k: real)
    ensures v in c.terms ==> k == c.terms[v]
    ensures v !in c.terms ==> k == 0.0
  {
    if v in c.terms then c.terms[v] else 0.0
  }

  /** The values of a variable list, column by column. */
  function Values(vs: seq<VariableState>): (x: seq<real>)
    ensures |x| == |vs| && forall i :: 0 <= i < |vs| ==> x[i] == vs[i].value
  {
    seq(|vs|, i requires 0 <= i < |vs| => vs[i].value)
  }

  /** The position of the first occurrence of id in the list. */
  function IndexOf(list: seq<ConstraintId>, id: ConstraintId): (k: nat)
    requires id in list
    ensures k < |list| && list[k] == id && id !in list[..k]
  {
    if list[0] == id then 0
    else
      assert id in list[1..];
      var k := IndexOf(list[1..], id);
      assert list[..k + 1] == [list[0]] + list[1..][..k];
      k + 1
  }

  /** `List.remove(Object)` on the solver's constraint list: drops the first occurrence
      of id and keeps the order of the rest; without an occurrence nothing changes. */
  function RemoveFirst(list: seq<ConstraintId>, id: ConstraintId): (r: seq<ConstraintId>)
    ensures id !in list ==> r == list
    ensures id in list ==> |r| == |list| - 1 && multiset(r) == multiset(list) - multiset{id}
    ensures id in list ==> r == list[..IndexOf(list, id)] + list[IndexOf(list, id) + 1..]
    ensures forall x :: x in r ==> x in list
  {
    if id in list then
      var k := IndexOf(list, id);
      assert list == list[..k] + [id] + list[k + 1..];
      list[..k] + list[k + 1..]
    else list
  }

  /** Removing an id that was appended to a list without it gives back the list. */
  lemma RemoveFirstUndoesAppend(list: seq<ConstraintId>, id: ConstraintId)
    requires id !in list
    ensures RemoveFirst(list + [id], id) == list
  {
    var k := IndexOf(list + [id], id);
    assert k == |list|;
  }
}
