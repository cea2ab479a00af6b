/**
  Matrix.java: the augmented matrix of the solver, backed by a two-dimensional
  array indexed [column, row] as in the Java `double[column][row]`, with the
  target sums in the last column.  Every method works on the array in place
  (or only reads it) and is proved to compute the corresponding function of
  module Echelon.
*/
module Matrices {
  import opened Numbers
  import opened Echelon

  class Matrix {
    /** The array backing; `width` columns (variables plus the sum) and `height` rows (constraints). */
    const data: array2<real>
    const width: nat
    const height: nat

    ghost predicate Valid()
    {
      data.Length0 == width && data.Length1 == height && width > 0
    }

    /** The matrix as a value, column first. */
    ghost function Cells(): (g: Grid)
      reads data
      requires Valid()
      ensures IsMatrix(g) && |g| == width && Height(g) == height
      ensures forall c, r :: 0 <= c < width && 0 <= r < height ==> g[c][r] == data[c, r]
    {
      seq(width, c requires 0 <= c < width reads data =>
        seq(height, r requires 0 <= r < height reads data => data[c, r]))
    }

    /** `Matrix(double[][] matrix)`: width from the outer array, height from its first column. */
    constructor (a: array2<real>)
      requires a.Length0 > 0
      ensures Valid() && data == a && width == a.Length0 && height == a.Length1
    {
      data := a;
      width := a.Length0;
      height := a.Length1;
    }

    /** `allZeroes(row)`: every coefficient column of the row is within tolerance of zero. */
    method AllZeroes(row: nat) returns (allZero: bool)
      requires Valid() && row < height
      ensures allZero == ZeroRow(Cells(), row)
      ensures allZero <==> forall c :: 0 <= c < width - 1 ==> Abs(data[c, row]) <= MatrixTolerance
    {
      allZero := true;
      var column := 0;
      while column < width - 1
        invariant 0 <= column <= width - 1
        invariant allZero == forall c :: 0 <= c < column ==> Abs(data[c, row]) <= MatrixTolerance
      {
        allZero := allZero && Abs(data[column, row]) <= MatrixTolerance;
        column := column + 1;
      }
    }

    /** `isOverConstrained()`: some row is zero in every coefficient column but not in the sum column. */
    method IsOverConstrained() returns (over: bool)
      requires Valid()
      ensures over == OverConstrained(Cells())
    {
      var row := 0;
      while row < height
        invariant row <= height
        invariant forall r :: 0 <= r < row ==>
          !(ZeroRow(Cells(), r) && Abs(Cells()[width - 1][r]) > MatrixTolerance)
      {
        if Abs(data[width - 1, row]) > MatrixTolerance {
          var zero := AllZeroes(row);
          if zero {
            return true;
          }
        }
        row := row + 1;
      }
      return false;
    }

    /** `isUnderConstrained()`: the non-zero rows are fewer than the variable columns. */
    method IsUnderConstrained() returns (under: bool)
      requires Valid()
      ensures under == UnderConstrained(Cells())
    {
      var equations := 0;
      var row := 0;
      while row < height
        invariant row <= height
        invariant equations == Rank(Cells(), row)
      {
        var zero := AllZeroes(row);
        if !zero {
          equations := equations + 1;
        }
        row := row + 1;
      }
      under := equations < width - 1;
    }

    /** `rref()`: elimination with partial pivoting, in place, column by column. */
    method Rref()
      requires Valid()
      modifies data
      ensures Cells() == Echelon.Rref(old(Cells()))
      ensures IsEchelon(Cells(), Pivots(old(Cells())))
    {
      ghost var g0 := Cells();
      var leadRow: nat, leadColumn: nat := 0, 0;
      while leadColumn < width && leadRow < height
        invariant leadRow <= height && leadColumn <= width && leadRow <= leadColumn
        invariant RrefFrom(Cells(), leadRow, leadColumn) == Echelon.Rref(old(Cells()))
        decreases width - leadColumn
      {
        leadRow := RrefStep(leadColumn, leadRow);
        leadColumn := leadColumn + 1;
      }
      RrefIsEchelon(g0);
    }

    /** One iteration of `rref()`'s loop: the pivot row for leadColumn from leadRow down, and
        if its entry is above the tolerance, the elimination step for it; returns the next lead row. */
    method RrefStep(leadColumn: nat, leadRow: nat) returns (nextRow: nat)
      requires Valid() && leadColumn < width && leadRow < height
      modifies data
      ensures nextRow <= leadRow + 1 && nextRow <= height
      ensures RrefFrom(old(Cells()), leadRow, leadColumn) == RrefFrom(Cells(), nextRow, leadColumn + 1)
    {
      nextRow := leadRow;
      var pivotRow := GetPivotRow(leadColumn, leadRow);
      if Abs(data[leadColumn, pivotRow]) > MatrixTolerance {
        Pivot(leadColumn, leadRow, pivotRow);
        nextRow := leadRow + 1;
      }
    }

    /** The accepting branch of `rref()`'s loop: swap the pivot row up to leadRow, clear the
        pivot column below it, and scale it to a leading one. */
    method Pivot(leadColumn: nat, leadRow: nat, pivotRow: nat)
      requires Valid() && leadColumn < width && leadRow < height && pivotRow < height
      requires data[leadColumn, pivotRow] != 0.0
      modifies data
      ensures Cells() == PivotStep(old(Cells()), leadColumn, leadRow, pivotRow)
    {
      SwapRows(leadRow, pivotRow);
      SubtractPivot(leadColumn, leadRow);
      ReduceRow(leadColumn, leadRow);
    }

    /** `getPivotRow(leadColumn, leadRow)`: the row from leadRow down with the largest magnitude
        in leadColumn; ties go to the last such row. */
    method GetPivotRow(leadColumn: nat, leadRow: nat) returns (maxRow: nat)
      requires Valid() && leadColumn < width && leadRow < height
      ensures maxRow == PivotRow(Cells(), leadColumn, leadRow, height)
      ensures leadRow <= maxRow < height
    {
      var maxValue := 0.0;
      maxRow := 0;
      var row := leadRow;
      while row < height
        invariant leadRow <= row <= height
        invariant maxRow == PivotRow(Cells(), leadColumn, leadRow, row)
        invariant maxValue == if row == leadRow then 0.0 else Abs(data[leadColumn, maxRow])
      {
        var absValue := Abs(data[leadColumn, row]);
        if absValue >= maxValue {
          maxValue := absValue;
          maxRow := row;
        }
        row := row + 1;
      }
      PivotRowIsLastMaximum(Cells(), leadColumn, leadRow, height);
    }

    /** `swapRows(row1, row2)`: exchanges the two rows in every column. */
    method SwapRows(row1: nat, row2: nat)
      requires Valid() && row1 < height && row2 < height
      modifies data
      ensures Cells() == Echelon.SwapRows(old(Cells()), row1, row2)
    {
      var column := 0;
      while column < width
        invariant column <= width
        invariant forall c, r :: 0 <= c < width && 0 <= r < height ==>
          data[c, r] == if c < column && r == row2 then old(data[c, row1])
                        else if c < column && r == row1 then old(data[c, row2])
                        else old(data[c, r])
      {
        var swap := data[column, row1];
        data[column, row1] := data[column, row2];
        data[column, row2] := swap;
        column := column + 1;
      }
      SameGrid(Cells(), Echelon.SwapRows(old(Cells()), row1, row2));
    }

    /** `subtractPivot(pivotColumn, pivotRow)`: clears pivotColumn below pivotRow. */
    method SubtractPivot(pivotColumn: nat, pivotRow: nat)
      requires Valid() && pivotColumn < width && pivotRow < height
      requires data[pivotColumn, pivotRow] != 0.0
      modifies data
      ensures Cells() == Echelon.SubtractPivot(old(Cells()), pivotColumn, pivotRow)
    {
      ghost var target := Echelon.SubtractPivot(Cells(), pivotColumn, pivotRow);
      var row := pivotRow + 1;
      while row < height
        invariant pivotRow + 1 <= row <= height
        invariant forall c, r :: 0 <= c < width && 0 <= r < height ==>
          data[c, r] == if r < row then target[c][r] else old(data[c, r])
      {
        var multiplier := data[pivotColumn, row] / data[pivotColumn, pivotRow];
        var column := pivotColumn;
        while column < width
          invariant pivotColumn <= column <= width
          invariant forall c, r :: 0 <= c < width && 0 <= r < height ==>
            data[c, r] == if r < row || (r == row && c < column) then target[c][r] else old(data[c, r])
        {
          data[column, row] := data[column, row] - multiplier * data[column, pivotRow];
          column := column + 1;
        }
        row := row + 1;
      }
      SameGrid(Cells(), target);
    }

    /** `reduceRow(leadColumn, row)`: divides the row, from the last column down to leadColumn,
        by its leading entry, which is therefore divided last. */
    method ReduceRow(leadColumn: nat, row: nat)
      requires Valid() && leadColumn < width && row < height
      requires data[leadColumn, row] != 0.0
      modifies data
      ensures Cells() == Echelon.ReduceRow(old(Cells()), leadColumn, row)
    {
      var column: int := width - 1;
      while column >= leadColumn
        invariant leadColumn - 1 <= column <= width - 1
        invariant forall c, r :: 0 <= c < width && 0 <= r < height ==>
          data[c, r] == if r == row && column < c then old(data[c, r]) / old(data[leadColumn, row])
                        else old(data[c, r])
      {
        data[column, row] := data[column, row] / data[leadColumn, row];
        column := column - 1;
      }
      SameGrid(Cells(), Echelon.ReduceRow(old(Cells()), leadColumn, row));
    }

    /** `solve()`: back-substitution from the bottom row up; the matrix is left as it is. */
    method Solve() returns (vars: array<real>)
      requires Valid()
      ensures fresh(vars) && vars[..] == BackSub(Cells())
    {
      vars := new real[width](_ => 0.0);
      var row: int := height - 1;
      while row >= 0
        invariant -1 <= row <= height - 1
        invariant vars.Length == width
        invariant vars[..] == BackSubFrom(Cells(), row + 1)
      {
        SolveRow(vars, row);
        row := row - 1;
      }
    }

    /** One pass of `solve()`'s outer loop: a non-zero row fixes its leading variable. */
    method SolveRow(vars: array<real>, row: nat)
      requires Valid() && row < height && vars.Length == width
      requires vars[..] == BackSubFrom(Cells(), row + 1)
      modifies vars
      ensures vars[..] == BackSubFrom(Cells(), row)
    {
      ghost var g := Cells();
      var zero := AllZeroes(row);
      if !zero {
        ghost var x := vars[..];
        var leadColumn := FindLead(row);
        LeadOfNonZeroRow(g, row);
        ghost var rest := g[width - 1][row] - RowSum(g, row, x, leadColumn + 1, width);
        assert BackSubFrom(g, row) == x[leadColumn := rest / g[leadColumn][row]];
        vars[leadColumn] := data[width - 1, row];
        RowSumAgree(g, row, vars[..], x, leadColumn + 1, width);
        SubtractKnown(vars, row, leadColumn);
        assert vars[..] == x[leadColumn := rest];
        vars[leadColumn] := vars[leadColumn] / data[leadColumn, row];
        assert vars[..] == x[leadColumn := rest / g[leadColumn][row]];
      }
    }

    /** `solve()`'s inner loop: subtracts the already known variables to the right of the lead
        from the row's sum, in vars[leadColumn]. */
    method SubtractKnown(vars: array<real>, row: nat, leadColumn: nat)
      requires Valid() && row < height && vars.Length == width && leadColumn < width
      modifies vars
      ensures vars[..] == old(vars[..])[leadColumn :=
        old(vars[leadColumn]) - RowSum(Cells(), row, old(vars[..]), leadColumn + 1, width)]
    {
      ghost var g := Cells();
      ghost var x := vars[..];
      var column := leadColumn + 1;
      while column < width
        invariant leadColumn + 1 <= column <= width
        invariant vars[leadColumn] == x[leadColumn] - RowSum(g, row, x, leadColumn + 1, column)
        invariant forall c :: 0 <= c < width && c != leadColumn ==> vars[c] == x[c]
      {
        assert vars[column] == x[column];
        assert data[column, row] == g[column][row];
        var term := data[column, row] * vars[column];
        assert term == g[column][row] * x[column];
        assert RowSum(g, row, x, leadColumn + 1, column + 1)
            == RowSum(g, row, x, leadColumn + 1, column) + g[column][row] * x[column];
        vars[leadColumn] := vars[leadColumn] - term;
        column := column + 1;
      }
    }

    /** `solve()`'s lead search: the first column of a non-zero row that is not within tolerance of zero. */
    method FindLead(row: nat) returns (leadColumn: nat)
      requires Valid() && row < height && !ZeroRow(Cells(), row)
      ensures leadColumn == Lead(Cells(), row) && leadColumn < width - 1
      ensures !NearZero(data[leadColumn, row])
      ensures forall c :: 0 <= c < leadColumn ==> NearZero(data[c, row])
    {
      LeadOfNonZeroRow(Cells(), row);
      leadColumn := 0;
      while leadColumn < width && Abs(data[leadColumn, row]) <= MatrixTolerance
        invariant 0 <= leadColumn <= Lead(Cells(), row)
        invariant LeadFrom(Cells(), row, leadColumn) == Lead(Cells(), row)
      {
        leadColumn := leadColumn + 1;
      }
    }
  }

  /** Two grids of one shape with equal entries are equal. */
  lemma SameGrid(a: Grid, b: Grid)
    requires SameShape(a, b)
    requires forall c, r :: 0 <= c < |a| && 0 <= r < Height(a) ==> a[c][r] == b[c][r]
    ensures a == b
  {
    forall c | 0 <= c < |a|
      ensures a[c] == b[c]
    {
    }
  }
}
