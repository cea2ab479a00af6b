/**
  The linear algebra of Matrix.java as functions on values.

  A `Grid` is the augmented matrix exactly as Matrix.java stores it, column
  first: `g[column][row]`, with the target sums in the last column.  Every
  private step of the elimination (pivot search, row swap, elimination below
  the pivot, row scaling) is a function here, and `RrefFrom` runs them in the
  order of `Matrix.rref`'s loop.  The class in matrix.dfy is proved to compute
  these functions in place; the lemmas below say what they mean.
*/
module Echelon {
  import opened Numbers

  type Grid = seq<seq<real>>

  /** A non-empty rectangular grid: at least the sum column, every column as tall as the first. */
  predicate IsMatrix(g: Grid)
  {
    |g| > 0 && forall c :: 0 <= c < |g| ==> |g[c]| == |g[0]|
  }

  /** Number of rows (constraints). */
  function Height(g: Grid): nat
  {
    if |g| == 0 then 0 else |g[0]|
  }

  /** Two grids of the same shape. */
  predicate SameShape(a: Grid, b: Grid)
  {
    IsMatrix(a) && IsMatrix(b) && |a| == |b| && Height(a) == Height(b)
  }

  /** A value the engine treats as zero: within tolerance, inclusive (see the finding below). */
  predicate NearZero(x: real)
  {
    Abs(x) <= MatrixTolerance
  }

  // ---------------------------------------------------------------------------
  // The elimination steps
  // ---------------------------------------------------------------------------

  /** `getPivotRow(col, lo)` scanning rows lo..hi-1: starts from row 0 with maximum 0.0,
      and a row replaces the current choice when its magnitude is `>=` the maximum so far. */
  function PivotRow(g: Grid, col: nat, lo: nat, hi: nat): (p: nat)
    requires IsMatrix(g) && col < |g| && hi <= Height(g)
    ensures lo < hi ==> lo <= p < hi
    ensures hi <= lo ==> p == 0
    decreases hi
  {
    if hi <= lo then 0
    else
      var p := PivotRow(g, col, lo, hi - 1);
      var best := if hi - 1 == lo then 0.0 else Abs(g[col][p]);
      if Abs(g[col][hi - 1]) >= best then hi - 1 else p
  }

  /** `swapRows(r1, r2)`: every column has its entries at r1 and r2 exchanged. */
  function SwapRows(g: Grid, r1: nat, r2: nat): (s: Grid)
    requires IsMatrix(g) && r1 < Height(g) && r2 < Height(g)
    ensures SameShape(g, s)
  {
    seq(|g|, c requires 0 <= c < |g| => g[c][r1 := g[c][r2]][r2 := g[c][r1]])
  }

  /** `subtractPivot(pc, pr)`: from each later row, subtract the multiple of row pr
      that the ratio of their entries in column pc calls for, in columns from pc on. */
  function SubtractPivot(g: Grid, pc: nat, pr: nat): (s: Grid)
    requires IsMatrix(g) && pc < |g| && pr < Height(g) && g[pc][pr] != 0.0
    ensures SameShape(g, s)
  {
    seq(|g|, c requires 0 <= c < |g| =>
      seq(Height(g), r requires 0 <= r < Height(g) =>
        if pr < r && pc <= c then g[c][r] - g[pc][r] / g[pc][pr] * g[c][pr] else g[c][r]))
  }

  /** `reduceRow(lc, row)`: columns lc and later of the row divided by its entry in column lc. */
  function ReduceRow(g: Grid, lc: nat, row: nat): (s: Grid)
    requires IsMatrix(g) && lc < |g| && row < Height(g) && g[lc][row] != 0.0
    ensures SameShape(g, s)
  {
    seq(|g|, c requires 0 <= c < |g| =>
      if lc <= c then g[c][row := g[c][row] / g[lc][row]] else g[c])
  }

  /** One accepted pivot: swap the pivot row up, clear below it, scale it. */
  function PivotStep(g: Grid, col: nat, lead: nat, p: nat): (s: Grid)
    requires IsMatrix(g) && col < |g| && lead < Height(g) && p < Height(g)
    requires g[col][p] != 0.0
    ensures SameShape(g, s)
  {
    var g1 := SwapRows(g, lead, p);
    var g2 := SubtractPivot(g1, col, lead);
    assert g2[col][lead] == g[col][p];
    ReduceRow(g2, col, lead)
  }

  /** The remaining iterations of `rref`'s loop from counters (lead, col). */
  function RrefFrom(g: Grid, lead: nat, col: nat): (s: Grid)
    requires IsMatrix(g)
    ensures SameShape(g, s)
    decreases |g| - col
  {
    if col >= |g| || lead >= Height(g) then g
    else
      var p := PivotRow(g, col, lead, Height(g));
      if Abs(g[col][p]) > MatrixTolerance then RrefFrom(PivotStep(g, col, lead, p), lead + 1, col + 1)
      else RrefFrom(g, lead, col + 1)
  }

  /** The columns in which those iterations accept a pivot, in order. */
  ghost function PivotsFrom(g: Grid, lead: nat, col: nat): seq<nat>
    requires IsMatrix(g)
    decreases |g| - col
  {
    if col >= |g| || lead >= Height(g) then []
    else
      var p := PivotRow(g, col, lead, Height(g));
      if Abs(g[col][p]) > MatrixTolerance then [col] + PivotsFrom(PivotStep(g, col, lead, p), lead + 1, col + 1)
      else PivotsFrom(g, lead, col + 1)
  }

  /** What `rref()` leaves in the matrix. */
  function Rref(g: Grid): (r: Grid)
    requires IsMatrix(g)
  {
    RrefFrom(g, 0, 0)
  }

  ghost function Pivots(g: Grid): seq<nat>
    requires IsMatrix(g)
  {
    PivotsFrom(g, 0, 0)
  }

  // ---------------------------------------------------------------------------
  // Diagnostics and back-substitution
  // ---------------------------------------------------------------------------

  /** `allZeroes(row)`: every coefficient column (all but the sum column) is zero. */
  predicate ZeroRow(g: Grid, row: nat)
    requires IsMatrix(g) && row < Height(g)
  {
    forall c :: 0 <= c < |g| - 1 ==> NearZero(g[c][row])
  }

  /** `isOverConstrained()`: some row reads "0 = nonzero". */
  predicate OverConstrained(g: Grid)
    requires IsMatrix(g)
  {
    exists r :: 0 <= r < Height(g) && ZeroRow(g, r) && Abs(g[|g| - 1][r]) > MatrixTolerance
  }

  /** Number of rows among the first n that are not zero rows (the equations counted by `isUnderConstrained`). */
  function Rank(g: Grid, n: nat): (k: nat)
    requires IsMatrix(g) && n <= Height(g)
    ensures k <= n
  {
    if n == 0 then 0 else Rank(g, n - 1) + (if ZeroRow(g, n - 1) then 0 else 1)
  }

  /** `isUnderConstrained()`: fewer equations than variable columns. */
  predicate UnderConstrained(g: Grid)
    requires IsMatrix(g)
  {
    Rank(g, Height(g)) < |g| - 1
  }

  /** The first column from c on whose entry in the row is not zero (`|g|` if none): `solve`'s lead search. */
  function LeadFrom(g: Grid, row: nat, c: nat): (k: nat)
    requires IsMatrix(g) && row < Height(g)
    decreases |g| - c
  {
    if c >= |g| || !NearZero(g[c][row]) then c else LeadFrom(g, row, c + 1)
  }

  function Lead(g: Grid, row: nat): nat
    requires IsMatrix(g) && row < Height(g)
  {
    LeadFrom(g, row, 0)
  }

  /** g[lo][row]*x[lo] + ... + g[hi-1][row]*x[hi-1], added left to right as `solve`'s inner loop does. */
  function RowSum(g: Grid, row: nat, x: seq<real>, lo: nat, hi: nat): (s: real)
    requires IsMatrix(g) && row < Height(g) && hi <= |g| && |x| == |g|
    decreases hi
  {
    if hi <= lo then 0.0 else RowSum(g, row, x, lo, hi - 1) + g[hi - 1][row] * x[hi - 1]
  }

  /** The row's equation, counting its terms from column lc on:
      g[lc][row]*x[lc] + ... + g[|g|-1][row]*x[|g|-1] == g[|g|-1][row]. */
  predicate SatisfiedFrom(g: Grid, row: nat, x: seq<real>, lc: nat)
    requires IsMatrix(g) && row < Height(g) && lc < |g| && |x| == |g|
  {
    g[lc][row] * x[lc] + RowSum(g, row, x, lc + 1, |g|) == g[|g| - 1][row]
  }

  /** The vector `solve()` holds after it has handled rows k..Height-1 (bottom-up). */
  function BackSubFrom(g: Grid, k: nat): (x: seq<real>)
    requires IsMatrix(g) && k <= Height(g)
    ensures |x| == |g|
    decreases Height(g) - k
  {
    if k == Height(g) then seq(|g|, _ => 0.0)
    else
      var x := BackSubFrom(g, k + 1);
      if ZeroRow(g, k) then x
      else
        var lc := Lead(g, k);
        LeadOfNonZeroRow(g, k);
        x[lc := (g[|g| - 1][k] - RowSum(g, k, x, lc + 1, |g|)) / g[lc][k]]
  }

  /** What `solve()` returns. */
  function BackSub(g: Grid): (x: seq<real>)
    requires IsMatrix(g)
    ensures |x| == |g|
  {
    BackSubFrom(g, 0)
  }

  // ---------------------------------------------------------------------------
  // Lemmas: the steps
  // ---------------------------------------------------------------------------

  /** The pivot row has the largest magnitude from lo down, and ties go to the last such row. */
  lemma {:induction false} PivotRowIsLastMaximum(g: Grid, col: nat, lo: nat, hi: nat)
    requires IsMatrix(g) && col < |g| && lo < hi <= Height(g)
    ensures var p := PivotRow(g, col, lo, hi);
      && lo <= p < hi
      && (forall r :: lo <= r < hi ==> Abs(g[col][r]) <= Abs(g[col][p]))
      && (forall r :: p < r < hi ==> Abs(g[col][r]) < Abs(g[col][p]))
    decreases hi
  {
    if hi - 1 > lo {
      PivotRowIsLastMaximum(g, col, lo, hi - 1);
    }
  }

  /** A column whose entries from lo down are all zero yields the last row. */
  lemma ZeroColumnPivotIsLastRow(g: Grid, col: nat, lo: nat, hi: nat)
    requires IsMatrix(g) && col < |g| && lo < hi <= Height(g)
    requires forall r :: lo <= r < hi ==> g[col][r] == 0.0
    ensures PivotRow(g, col, lo, hi) == hi - 1
  {
    PivotRowIsLastMaximum(g, col, lo, hi);
  }

  /** `swapRows` exchanges the two rows and leaves every other row as it was. */
  lemma SwapRowsExchanges(g: Grid, r1: nat, r2: nat)
    requires IsMatrix(g) && r1 < Height(g) && r2 < Height(g)
    ensures var s := SwapRows(g, r1, r2);
      && (forall c :: 0 <= c < |g| ==> s[c][r1] == g[c][r2] && s[c][r2] == g[c][r1])
      && (forall c, r :: 0 <= c < |g| && 0 <= r < Height(g) && r != r1 && r != r2 ==> s[c][r] == g[c][r])
  {
  }

  /** `subtractPivot` leaves rows up to the pivot row and earlier columns alone and clears the pivot column below. */
  lemma SubtractPivotClearsColumn(g: Grid, pc: nat, pr: nat)
    requires IsMatrix(g) && pc < |g| && pr < Height(g) && g[pc][pr] != 0.0
    ensures var s := SubtractPivot(g, pc, pr);
      && (forall c, r :: 0 <= c < |g| && 0 <= r <= pr ==> s[c][r] == g[c][r])
      && (forall c, r :: 0 <= c < pc && 0 <= r < Height(g) ==> s[c][r] == g[c][r])
      && (forall r :: pr < r < Height(g) ==> s[pc][r] == 0.0)
  {
  }

  /** `reduceRow` makes the leading entry exactly 1 and changes nothing outside that row. */
  lemma ReduceRowNormalizes(g: Grid, lc: nat, row: nat)
    requires IsMatrix(g) && lc < |g| && row < Height(g) && g[lc][row] != 0.0
    ensures var s := ReduceRow(g, lc, row);
      && s[lc][row] == 1.0
      && (forall c :: lc <= c < |g| ==> s[c][row] * g[lc][row] == g[c][row])
      && (forall c :: 0 <= c < lc ==> s[c][row] == g[c][row])
      && (forall c, r :: 0 <= c < |g| && 0 <= r < Height(g) && r != row ==> s[c][r] == g[c][r])
  {
    var s := ReduceRow(g, lc, row);
    assert s[lc][row] == g[lc][row] / g[lc][row] == 1.0;
  }

  // ---------------------------------------------------------------------------
  // Lemmas: `rref` produces row-echelon form
  // ---------------------------------------------------------------------------

  /** The shape `rref`'s loop keeps: rows above `|piv|` lead with 1 in strictly increasing
      pivot columns (all before col), with zeros below each pivot and only near-zero entries
      before it; rows from `|piv|` down are near-zero in every column before col. */
  ghost predicate EchelonUpTo(g: Grid, piv: seq<nat>, col: nat)
    requires IsMatrix(g)
  {
    && |piv| <= Height(g) && col <= |g|
    && (forall i, j :: 0 <= i < j < |piv| ==> piv[i] < piv[j])
    && (forall i :: 0 <= i < |piv| ==> piv[i] < col && g[piv[i]][i] == 1.0)
    && (forall i, r :: 0 <= i < |piv| && i < r < Height(g) ==> g[piv[i]][r] == 0.0)
    && (forall i, c :: 0 <= i < |piv| && 0 <= c < piv[i] ==> NearZero(g[c][i]))
    && (forall r, c :: |piv| <= r < Height(g) && 0 <= c < col ==> NearZero(g[c][r]))
  }

  /** Row-echelon form with leading ones, the sum column included as a possible pivot column. */
  ghost predicate IsEchelon(g: Grid, piv: seq<nat>)
    requires IsMatrix(g)
  {
    EchelonUpTo(g, piv, |g|)
  }

  /** A column with no acceptable pivot adds nothing but keeps the shape one column further. */
  lemma SkipKeepsEchelon(g: Grid, piv: seq<nat>, col: nat)
    requires IsMatrix(g) && EchelonUpTo(g, piv, col) && col < |g| && |piv| < Height(g)
    requires !(Abs(g[col][PivotRow(g, col, |piv|, Height(g))]) > MatrixTolerance)
    ensures EchelonUpTo(g, piv, col + 1)
  {
    PivotRowIsLastMaximum(g, col, |piv|, Height(g));
  }

  /** Swapping two rows at or below the lead row keeps the shape. */
  lemma SwapKeepsEchelon(g: Grid, piv: seq<nat>, col: nat, p: nat)
    requires IsMatrix(g) && EchelonUpTo(g, piv, col) && |piv| <= p < Height(g)
    ensures EchelonUpTo(SwapRows(g, |piv|, p), piv, col)
  {
    var s := SwapRows(g, |piv|, p);
    var L := |piv|;
    SwapRowsExchanges(g, L, p);
    forall i, r | 0 <= i < L && i < r < Height(g)
      ensures s[piv[i]][r] == 0.0
    {
      if r == L {
        assert s[piv[i]][r] == g[piv[i]][p];
      } else if r == p {
        assert s[piv[i]][r] == g[piv[i]][L];
      }
    }
    forall r, c | L <= r < Height(g) && 0 <= c < col
      ensures NearZero(s[c][r])
    {
      if r == L {
        assert s[c][r] == g[c][p];
      } else if r == p {
        assert s[c][r] == g[c][L];
      }
    }
  }

  /** Clearing the column below the lead row keeps the shape and zeroes that column below it. */
  lemma SubtractKeepsEchelon(g: Grid, piv: seq<nat>, col: nat)
    requires IsMatrix(g) && EchelonUpTo(g, piv, col) && col < |g| && |piv| < Height(g)
    requires g[col][|piv|] != 0.0
    ensures var s := SubtractPivot(g, col, |piv|);
      && EchelonUpTo(s, piv, col)
      && (forall c :: 0 <= c < |g| ==> s[c][|piv|] == g[c][|piv|])
      && (forall r :: |piv| < r < Height(g) ==> s[col][r] == 0.0)
  {
    var s := SubtractPivot(g, col, |piv|);
    SubtractPivotClearsColumn(g, col, |piv|);
    forall i | 0 <= i < |piv|
      ensures s[piv[i]][i] == 1.0
    {
      assert s[piv[i]][i] == g[piv[i]][i];
    }
    forall i, r | 0 <= i < |piv| && i < r < Height(g)
      ensures s[piv[i]][r] == 0.0
    {
      assert s[piv[i]][r] == g[piv[i]][r];
    }
    forall i, c | 0 <= i < |piv| && 0 <= c < piv[i]
      ensures NearZero(s[c][i])
    {
      assert s[c][i] == g[c][i];
    }
    forall r, c | |piv| <= r < Height(g) && 0 <= c < col
      ensures NearZero(s[c][r])
    {
      assert s[c][r] == g[c][r];
    }
  }

  /** Scaling the lead row to a leading one makes col the next pivot column. */
  lemma ReduceExtendsEchelon(g: Grid, piv: seq<nat>, col: nat)
    requires IsMatrix(g) && EchelonUpTo(g, piv, col) && col < |g| && |piv| < Height(g)
    requires g[col][|piv|] != 0.0
    requires forall r :: |piv| < r < Height(g) ==> g[col][r] == 0.0
    ensures EchelonUpTo(ReduceRow(g, col, |piv|), piv + [col], col + 1)
  {
    var L := |piv|;
    var s := ReduceRow(g, col, L);
    ReduceRowNormalizes(g, col, L);
    var piv' := piv + [col];
    forall i | 0 <= i < |piv'|
      ensures piv'[i] < col + 1 && s[piv'[i]][i] == 1.0
    {
      if i < L {
        assert s[piv[i]][i] == g[piv[i]][i];
      }
    }
    forall i, r | 0 <= i < |piv'| && i < r < Height(g)
      ensures s[piv'[i]][r] == 0.0
    {
      assert s[piv'[i]][r] == g[piv'[i]][r];
    }
    forall i, c | 0 <= i < |piv'| && 0 <= c < piv'[i]
      ensures NearZero(s[c][i])
    {
      assert s[c][i] == g[c][i];
    }
    forall r, c | |piv'| <= r < Height(g) && 0 <= c < col + 1
      ensures NearZero(s[c][r])
    {
      assert s[c][r] == g[c][r];
    }
  }

  /** An accepted pivot in column col extends the shape by one row and one column. */
  lemma PivotKeepsEchelon(g: Grid, piv: seq<nat>, col: nat, p: nat)
    requires IsMatrix(g) && EchelonUpTo(g, piv, col) && col < |g| && |piv| <= p < Height(g)
    requires g[col][p] != 0.0
    ensures EchelonUpTo(PivotStep(g, col, |piv|, p), piv + [col], col + 1)
  {
    var L := |piv|;
    var g1 := SwapRows(g, L, p);
    SwapKeepsEchelon(g, piv, col, p);
    SwapRowsExchanges(g, L, p);
    assert g1[col][L] == g[col][p];
    SubtractKeepsEchelon(g1, piv, col);
    var g2 := SubtractPivot(g1, col, L);
    ReduceExtendsEchelon(g2, piv, col);
  }

  /** Running the rest of `rref`'s loop from a state in shape yields row-echelon form,
      with the pivot columns it accepts appended; lead, the loop's next pivot row, counts
      the pivots found so far. */
  lemma {:induction false} RrefFromIsEchelon(g: Grid, piv: seq<nat>, lead: nat, col: nat)
    requires IsMatrix(g) && EchelonUpTo(g, piv, col) && lead == |piv|
    ensures IsEchelon(RrefFrom(g, lead, col), piv + PivotsFrom(g, lead, col))
    decreases |g| - col, 1
  {
    if col >= |g| || lead >= Height(g) {
      assert piv + [] == piv;
    } else {
      var p := PivotRow(g, col, lead, Height(g));
      if Abs(g[col][p]) > MatrixTolerance {
        RrefFromPivotIsEchelon(g, piv, lead, col, p);
      } else {
        SkipKeepsEchelon(g, piv, col);
        RrefFromIsEchelon(g, piv, lead, col + 1);
      }
    }
  }

  /** An accepted pivot: the loop goes on from the pivoted matrix and appends col. */
  lemma AcceptedPivot(g: Grid, piv: seq<nat>, lead: nat, col: nat, p: nat, g': Grid)
    requires IsMatrix(g) && col < |g| && lead < Height(g)
    requires p == PivotRow(g, col, lead, Height(g)) && Abs(g[col][p]) > MatrixTolerance
    requires g' == PivotStep(g, col, lead, p)
    ensures RrefFrom(g, lead, col) == RrefFrom(g', lead + 1, col + 1)
    ensures piv + PivotsFrom(g, lead, col) == (piv + [col]) + PivotsFrom(g', lead + 1, col + 1)
  {
    var rest := PivotsFrom(g', lead + 1, col + 1);
    PivotsFromAccept(g, lead, col, p, g');
    assert piv + ([col] + rest) == (piv + [col]) + rest;
  }

  /** `rref`'s pivot list when the pivot in column col is accepted. */
  lemma PivotsFromAccept(g: Grid, lead: nat, col: nat, p: nat, g': Grid)
    requires IsMatrix(g) && col < |g| && lead < Height(g)
    requires p == PivotRow(g, col, lead, Height(g)) && Abs(g[col][p]) > MatrixTolerance
    requires g' == PivotStep(g, col, lead, p)
    ensures RrefFrom(g, lead, col) == RrefFrom(g', lead + 1, col + 1)
    ensures PivotsFrom(g, lead, col) == [col] + PivotsFrom(g', lead + 1, col + 1)
  {
  }

  /** `rref`'s pivot list when column col is skipped. */
  lemma PivotsFromSkip(g: Grid, lead: nat, col: nat, p: nat)
    requires IsMatrix(g) && col < |g| && lead < Height(g)
    requires p == PivotRow(g, col, lead, Height(g)) && Abs(g[col][p]) <= MatrixTolerance
    ensures PivotsFrom(g, lead, col) == PivotsFrom(g, lead, col + 1)
  {
  }

  /** The accepting case of `RrefFromIsEchelon`. */
  lemma {:induction false} RrefFromPivotIsEchelon(g: Grid, piv: seq<nat>, lead: nat, col: nat, p: nat)
    requires IsMatrix(g) && EchelonUpTo(g, piv, col) && lead == |piv| && col < |g| && lead < Height(g)
    requires p == PivotRow(g, col, lead, Height(g)) && Abs(g[col][p]) > MatrixTolerance
    ensures IsEchelon(RrefFrom(g, lead, col), piv + PivotsFrom(g, lead, col))
    decreases |g| - col, 0
  {
    var g' := PivotStep(g, col, lead, p);
    AcceptedPivot(g, piv, lead, col, p, g');
    PivotKeepsEchelon(g, piv, col, p);
    RrefFromIsEchelon(g', piv + [col], lead + 1, col + 1);
  }

  /** `rref()` leaves the matrix in row-echelon form with leading ones; its pivot columns
      strictly increase, can include the sum column, and number at most the rows. */
  lemma RrefIsEchelon(g: Grid)
    requires IsMatrix(g)
    ensures SameShape(g, Rref(g))
    ensures IsEchelon(Rref(g), Pivots(g))
    ensures |Pivots(g)| <= Height(g) && |Pivots(g)| <= |g|
  {
    RrefFromIsEchelon(g, [], 0, 0);
    assert [] + Pivots(g) == Pivots(g);
    PivotsBelowWidth(Rref(g), Pivots(g));
  }

  /** Strictly increasing pivot columns below the width are at most as many as the columns. */
  lemma {:induction false} PivotsBelowWidth(g: Grid, piv: seq<nat>)
    requires IsMatrix(g) && IsEchelon(g, piv)
    ensures |piv| <= |g|
    ensures forall i :: 0 <= i < |piv| ==> i <= piv[i]
  {
    forall i | 0 <= i < |piv|
      ensures i <= piv[i]
    {
      PivotAtLeastIndex(piv, i);
    }
    if |piv| > 0 {
      assert |piv| - 1 <= piv[|piv| - 1] < |g|;
    }
  }

  lemma {:induction false} PivotAtLeastIndex(piv: seq<nat>, i: nat)
    requires i < |piv|
    requires forall a, b :: 0 <= a < b < |piv| ==> piv[a] < piv[b]
    ensures i <= piv[i]
  {
    if i > 0 {
      PivotAtLeastIndex(piv, i - 1);
    }
  }

  // ---------------------------------------------------------------------------
  // Lemmas: what the diagnostics and back-substitution mean
  // ---------------------------------------------------------------------------

  /** The lead of a non-zero row is a coefficient column whose entry is not zero, and every entry before it is. */
  lemma LeadOfNonZeroRow(g: Grid, row: nat)
    requires IsMatrix(g) && row < Height(g) && !ZeroRow(g, row)
    ensures Lead(g, row) < |g| - 1
    ensures !NearZero(g[Lead(g, row)][row]) && g[Lead(g, row)][row] != 0.0
    ensures forall c :: 0 <= c < Lead(g, row) ==> NearZero(g[c][row])
  {
    var c :| 0 <= c < |g| - 1 && !NearZero(g[c][row]);
    LeadFromIsFirst(g, row, 0, c);
  }

  lemma {:induction false} LeadFromIsFirst(g: Grid, row: nat, from: nat, c: nat)
    requires IsMatrix(g) && row < Height(g) && from <= c < |g| && !NearZero(g[c][row])
    ensures LeadFrom(g, row, from) <= c
    ensures !NearZero(g[LeadFrom(g, row, from)][row])
    ensures forall k :: from <= k < LeadFrom(g, row, from) ==> NearZero(g[k][row])
    decreases c - from
  {
    if NearZero(g[from][row]) {
      LeadFromIsFirst(g, row, from + 1, c);
    }
  }

  /** In row-echelon form a row is a zero row exactly when it lies below the last pivot
      or its pivot is the sum column. */
  lemma EchelonZeroRows(g: Grid, piv: seq<nat>)
    requires IsMatrix(g) && IsEchelon(g, piv)
    ensures forall r :: 0 <= r < Height(g) ==> (ZeroRow(g, r) <==> (r >= |piv| || piv[r] == |g| - 1))
  {
    forall r | 0 <= r < Height(g)
      ensures ZeroRow(g, r) <==> (r >= |piv| || piv[r] == |g| - 1)
    {
      EchelonZeroRow(g, piv, r);
    }
  }

  lemma EchelonZeroRow(g: Grid, piv: seq<nat>, r: nat)
    requires IsMatrix(g) && IsEchelon(g, piv) && r < Height(g)
    ensures ZeroRow(g, r) <==> (r >= |piv| || piv[r] == |g| - 1)
  {
    if r < |piv| && piv[r] < |g| - 1 {
      assert !NearZero(g[piv[r]][r]);
    }
  }

  /** Only the last pivot can be the sum column. */
  lemma SumColumnPivotIsLast(g: Grid, piv: seq<nat>, i: nat)
    requires IsMatrix(g) && IsEchelon(g, piv) && i < |piv| && piv[i] == |g| - 1
    ensures i == |piv| - 1
  {
    PivotGap(piv, i, |piv| - 1);
  }

  lemma {:induction false} PivotGap(piv: seq<nat>, i: nat, j: nat)
    requires i <= j < |piv|
    requires forall a, b :: 0 <= a < b < |piv| ==> piv[a] < piv[b]
    ensures piv[j] - piv[i] >= j - i
    decreases j - i
  {
    if i < j {
      PivotGap(piv, i, j - 1);
    }
  }

  /** On row-echelon form, `isOverConstrained` holds exactly when the sum column became a pivot
      column, that is, some equation was reduced to "0 = 1". */
  lemma EchelonOverConstrained(g: Grid, piv: seq<nat>)
    requires IsMatrix(g) && IsEchelon(g, piv)
    ensures OverConstrained(g) <==> (|piv| > 0 && piv[|piv| - 1] == |g| - 1)
  {
    EchelonZeroRows(g, piv);
    if OverConstrained(g) {
      var r :| 0 <= r < Height(g) && ZeroRow(g, r) && Abs(g[|g| - 1][r]) > MatrixTolerance;
      assert r < |piv| && piv[r] == |g| - 1;
      SumColumnPivotIsLast(g, piv, r);
    }
    if |piv| > 0 && piv[|piv| - 1] == |g| - 1 {
      var r := |piv| - 1;
      assert ZeroRow(g, r) && g[|g| - 1][r] == 1.0;
    }
  }

  /** On row-echelon form the equations counted by `isUnderConstrained` are the pivot rows,
      less the row whose pivot is the sum column if there is one. */
  lemma {:induction false} EchelonRankFrom(g: Grid, piv: seq<nat>, n: nat)
    requires IsMatrix(g) && IsEchelon(g, piv) && n <= Height(g)
    ensures n <= |piv| ==> Rank(g, n) == n - (if n == |piv| && n > 0 && piv[n - 1] == |g| - 1 then 1 else 0)
    ensures n > |piv| ==> Rank(g, n) == Rank(g, |piv|)
  {
    if n > 0 {
      EchelonRankFrom(g, piv, n - 1);
      EchelonZeroRow(g, piv, n - 1);
      if n - 1 < |piv| && piv[n - 1] == |g| - 1 {
        SumColumnPivotIsLast(g, piv, n - 1);
      }
    }
  }

  /** The number of equations never exceeds the variable columns nor the rows. */
  lemma EchelonRankBound(g: Grid, piv: seq<nat>)
    requires IsMatrix(g) && IsEchelon(g, piv)
    ensures Rank(g, Height(g)) <= |g| - 1 && Rank(g, Height(g)) <= Height(g)
    ensures Rank(g, Height(g)) == |piv| - (if |piv| > 0 && piv[|piv| - 1] == |g| - 1 then 1 else 0)
  {
    EchelonRankFrom(g, piv, Height(g));
    EchelonRankFrom(g, piv, |piv|);
    PivotsBelowWidth(g, piv);
  }

  /** What `rref` gives the diagnostics: a rank within min(width-1, height), over-constrained
      exactly when the sum column was accepted as a pivot. */
  lemma RrefDiagnostics(g: Grid)
    requires IsMatrix(g)
    ensures var r := Rref(g);
      && IsMatrix(r)
      && Rank(r, Height(r)) <= |g| - 1 && Rank(r, Height(r)) <= Height(g)
      && (OverConstrained(r) <==> |g| - 1 in Pivots(g))
  {
    RrefIsEchelon(g);
    var r := Rref(g);
    var piv := Pivots(g);
    EchelonRankBound(r, piv);
    EchelonOverConstrained(r, piv);
    if |g| - 1 in piv {
      var i :| 0 <= i < |piv| && piv[i] == |g| - 1;
      SumColumnPivotIsLast(r, piv, i);
    }
  }

  /** In row-echelon form the lead `solve` finds in a pivot row is its pivot column. */
  lemma EchelonLead(g: Grid, piv: seq<nat>, i: nat)
    requires IsMatrix(g) && IsEchelon(g, piv) && i < |piv| && piv[i] < |g| - 1
    ensures !ZeroRow(g, i) && Lead(g, i) == piv[i]
  {
    EchelonZeroRows(g, piv);
    LeadOfNonZeroRow(g, i);
  }

  /** Row sums only look at the entries of x in their column range. */
  lemma {:induction false} RowSumAgree(g: Grid, row: nat, x: seq<real>, y: seq<real>, lo: nat, hi: nat)
    requires IsMatrix(g) && row < Height(g) && hi <= |g| && |x| == |g| && |y| == |g|
    requires forall c :: lo <= c < hi ==> x[c] == y[c]
    ensures RowSum(g, row, x, lo, hi) == RowSum(g, row, y, lo, hi)
    decreases hi
  {
    if lo < hi {
      RowSumAgree(g, row, x, y, lo, hi - 1);
    }
  }

  /** `solve` sets each non-zero row's lead so that the row's equation holds from the lead on,
      using the values it has already computed for the later columns. */
  lemma BackSubStep(g: Grid, k: nat)
    requires IsMatrix(g) && k < Height(g) && !ZeroRow(g, k)
    ensures var x := BackSubFrom(g, k); var lc := Lead(g, k);
      && lc < |g| - 1
      && (forall c :: 0 <= c < |g| && c != lc ==> x[c] == BackSubFrom(g, k + 1)[c])
      && SatisfiedFrom(g, k, x, lc)
  {
    var x := BackSubFrom(g, k);
    var y := BackSubFrom(g, k + 1);
    var lc := Lead(g, k);
    LeadOfNonZeroRow(g, k);
    RowSumAgree(g, k, x, y, lc + 1, |g|);
    assert g[lc][k] * ((g[|g| - 1][k] - RowSum(g, k, y, lc + 1, |g|)) / g[lc][k])
        == g[|g| - 1][k] - RowSum(g, k, y, lc + 1, |g|);
  }

  /** A column that is no non-zero row's lead keeps the 0.0 `solve` starts with; in particular the sum column. */
  lemma {:induction false} BackSubUnledColumns(g: Grid, k: nat, c: nat)
    requires IsMatrix(g) && k <= Height(g) && c < |g|
    requires forall r :: k <= r < Height(g) && !ZeroRow(g, r) ==> Lead(g, r) != c
    ensures BackSubFrom(g, k)[c] == 0.0
    decreases Height(g) - k
  {
    if k < Height(g) {
      BackSubUnledColumns(g, k + 1, c);
    }
  }

  /** The sum column of `solve`'s result is always 0.0. */
  lemma BackSubSumColumnIsZero(g: Grid)
    requires IsMatrix(g)
    ensures BackSub(g)[|g| - 1] == 0.0
  {
    forall r | 0 <= r < Height(g) && !ZeroRow(g, r)
      ensures Lead(g, r) != |g| - 1
    {
      LeadOfNonZeroRow(g, r);
    }
    BackSubUnledColumns(g, 0, |g| - 1);
  }

  /** Handling rows above a pivot row never touches the columns from its pivot on. */
  lemma {:induction false} BackSubKeepsLaterColumns(g: Grid, piv: seq<nat>, k: nat, i: nat)
    requires IsMatrix(g) && IsEchelon(g, piv) && k <= i < |piv| && piv[i] < |g| - 1
    ensures forall c :: piv[i] <= c < |g| ==> BackSubFrom(g, k)[c] == BackSubFrom(g, i)[c]
    decreases i - k
  {
    if k < i {
      BackSubKeepsLaterColumns(g, piv, k + 1, i);
      EchelonLead(g, piv, k);
      BackSubStep(g, k);
    }
  }

  /** Whether a row's equation holds from column lc on depends only on x from lc on. */
  lemma SatisfiedFromAgree(g: Grid, row: nat, x: seq<real>, y: seq<real>, lc: nat)
    requires IsMatrix(g) && row < Height(g) && lc < |g| && |x| == |g| && |y| == |g|
    requires forall c :: lc <= c < |g| ==> x[c] == y[c]
    ensures SatisfiedFrom(g, row, x, lc) <==> SatisfiedFrom(g, row, y, lc)
  {
    RowSumAgree(g, row, x, y, lc + 1, |g|);
  }

  /** Back-substitution on row-echelon form: the final vector satisfies every non-zero row's
      equation from its pivot on (its leading 1 times the pivot variable plus the later terms
      equals the row's sum). */
  lemma BackSubSolvesEchelon(g: Grid, piv: seq<nat>, i: nat)
    requires IsMatrix(g) && IsEchelon(g, piv) && i < |piv| && piv[i] < |g| - 1
    ensures SatisfiedFrom(g, i, BackSub(g), piv[i])
  {
    EchelonLead(g, piv, i);
    BackSubStep(g, i);
    BackSubKeepsLaterColumns(g, piv, 0, i);
    SatisfiedFromAgree(g, i, BackSub(g), BackSubFrom(g, i), piv[i]);
  }

  // ---------------------------------------------------------------------------
  // The zero test as written
  // ---------------------------------------------------------------------------
  // `rref` rejects a pivot whose magnitude is `<= TOLERANCE`, but `allZeroes` and
  // `solve`'s lead search call an entry zero only when it is `< TOLERANCE`.  An entry of
  // exactly TOLERANCE is therefore zero for the elimination and non-zero for the
  // diagnostics.  The model uses the inclusive test (`NearZero`) throughout; the
  // strict test is kept here to exhibit the discrepancy.

  /** `allZeroes(row)` as written: an entry counts as zero only when strictly below tolerance. */
  predicate ZeroRowAsWritten(g: Grid, row: nat)
    requires IsMatrix(g) && row < Height(g)
  {
    forall c :: 0 <= c < |g| - 1 ==> Abs(g[c][row]) < MatrixTolerance
  }

  /** The equation count of `isUnderConstrained` with the test as written. */
  function RankAsWritten(g: Grid, n: nat): (k: nat)
    requires IsMatrix(g) && n <= Height(g)
    ensures k <= n
  {
    if n == 0 then 0 else RankAsWritten(g, n - 1) + (if ZeroRowAsWritten(g, n - 1) then 0 else 1)
  }

  /** Two equations `TOLERANCE * v = 0` in one variable: `rref` finds no pivot and leaves the
      matrix as it is, yet the strict test counts two equations for one variable, so the
      rank exceeds width-1 and `isUnderConstrained` answers false; the inclusive test counts none. */
  lemma AsWrittenRankExceedsColumns()
    ensures var g := [[MatrixTolerance, MatrixTolerance], [0.0, 0.0]];
      && IsMatrix(g) && Rref(g) == g && Pivots(g) == []
      && RankAsWritten(Rref(g), 2) == 2 > |g| - 1
      && Rank(Rref(g), 2) == 0 && UnderConstrained(Rref(g))
  {
    var g := [[MatrixTolerance, MatrixTolerance], [0.0, 0.0]];
    assert PivotRow(g, 0, 0, 2) == 1;
    assert PivotRow(g, 1, 0, 2) == 1;
    assert RrefFrom(g, 0, 2) == g;
    assert RrefFrom(g, 0, 1) == g;
    assert PivotsFrom(g, 0, 1) == [];
    assert !ZeroRowAsWritten(g, 0) && !ZeroRowAsWritten(g, 1);
    assert ZeroRow(g, 0) && ZeroRow(g, 1);
    assert Rref(g) == g;
    assert RankAsWritten(g, 1) == 1;
    assert Rank(g, 1) == 0;
  }
}
