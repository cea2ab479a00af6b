/**
  What the values `solve()` computes mean for the constraints they were computed from.

  `rref`'s steps are not exact row operations: `subtractPivot` and `reduceRow` leave the
  near-zero entries before the pivot column alone.  They are exact on every pivot column,
  though, so for a vector that is zero outside the pivot columns (as back-substitution's
  result is) the original and the reduced system have the same equations satisfied.
  Back-substitution satisfies every pivot row of the reduced system; a row that `rref`
  reduced to zero is satisfied exactly when what is left of its sum is exactly zero.
*/
module Solutions {
  import opened Numbers
  import opened Echelon

  /** Row r's equation, g[0][r]*x[0] + ... + g[|g|-2][r]*x[|g|-2] == g[|g|-1][r]. */
  predicate Holds(g: Grid, r: nat, x: seq<real>)
    requires IsMatrix(g) && r < Height(g) && |x| == |g|
  {
    RowSum(g, r, x, 0, |g| - 1) == g[|g| - 1][r]
  }

  /** x satisfies every equation of g. */
  predicate Solves(g: Grid, x: seq<real>)
    requires IsMatrix(g) && |x| == |g|
  {
    forall r :: 0 <= r < Height(g) ==> Holds(g, r, x)
  }

  /** Every row the reduction turned into a zero row has a sum of exactly zero left. */
  predicate NoResidue(g: Grid)
    requires IsMatrix(g)
  {
    forall r :: 0 <= r < Height(g) && ZeroRow(g, r) ==> g[|g| - 1][r] == 0.0
  }

  /** x is zero in every column before n that is not in cols. */
  predicate ZeroOff(x: seq<real>, cols: seq<nat>, n: nat)
    requires n <= |x|
  {
    forall c :: 0 <= c < n && c !in cols ==> x[c] == 0.0
  }

  // ---------------------------------------------------------------------------
  // Row sums
  // ---------------------------------------------------------------------------

  /** A row sum whose every term has a zero factor is zero. */
  lemma {:induction false} RowSumVanishes(g: Grid, r: nat, x: seq<real>, lo: nat, hi: nat)
    requires IsMatrix(g) && r < Height(g) && hi <= |g| && |x| == |g|
    requires forall c :: lo <= c < hi ==> g[c][r] == 0.0 || x[c] == 0.0
    ensures RowSum(g, r, x, lo, hi) == 0.0
    decreases hi
  {
    if hi > lo {
      RowSumVanishes(g, r, x, lo, hi - 1);
    }
  }

  /** A row sum splits at any column in between. */
  lemma {:induction false} RowSumSplit(g: Grid, r: nat, x: seq<real>, lo: nat, mid: nat, hi: nat)
    requires IsMatrix(g) && r < Height(g) && lo <= mid <= hi <= |g| && |x| == |g|
    ensures RowSum(g, r, x, lo, hi) == RowSum(g, r, x, lo, mid) + RowSum(g, r, x, mid, hi)
    decreases hi
  {
    if hi > mid {
      RowSumSplit(g, r, x, lo, mid, hi - 1);
    }
  }

  // ---------------------------------------------------------------------------
  // Back-substitution on row-echelon form
  // ---------------------------------------------------------------------------

  /** A column that is not a pivot column keeps the 0.0 `solve` starts with. */
  lemma BackSubOffPivots(g: Grid, piv: seq<nat>, c: nat)
    requires IsMatrix(g) && IsEchelon(g, piv) && c < |g| && c !in piv
    ensures BackSub(g)[c] == 0.0
  {
    forall r | 0 <= r < Height(g) && !ZeroRow(g, r)
      ensures Lead(g, r) != c
    {
      EchelonZeroRow(g, piv, r);
      EchelonLead(g, piv, r);
    }
    BackSubUnledColumns(g, 0, c);
  }

  /** In row-echelon form a column before a row's pivot is an earlier pivot column, with an
      exact zero in that row, or no pivot column at all. */
  lemma BeforePivot(g: Grid, piv: seq<nat>, r: nat, c: nat)
    requires IsMatrix(g) && IsEchelon(g, piv) && r < Height(g) && c < |g|
    requires r < |piv| ==> c < piv[r]
    requires c in piv
    ensures g[c][r] == 0.0
  {
    var j :| 0 <= j < |piv| && piv[j] == c;
    if r < |piv| {
      assert j < r;
    }
  }

  /** Back-substitution satisfies the whole equation of every pivot row with a variable pivot. */
  lemma BackSubSolvesPivotRow(g: Grid, piv: seq<nat>, i: nat)
    requires IsMatrix(g) && IsEchelon(g, piv) && i < |piv| && piv[i] < |g| - 1
    ensures Holds(g, i, BackSub(g))
  {
    var x := BackSub(g);
    var p := piv[i];
    var n := |g| - 1;
    BackSubSolvesEchelon(g, piv, i);
    BackSubSumColumnIsZero(g);
    forall c | 0 <= c < p
      ensures g[c][i] == 0.0 || x[c] == 0.0
    {
      if c in piv {
        BeforePivot(g, piv, i, c);
      } else {
        BackSubOffPivots(g, piv, c);
      }
    }
    RowSumVanishes(g, i, x, 0, p);
    RowSumSplit(g, i, x, 0, p, n);
    RowSumSplit(g, i, x, p, p + 1, n);
    assert RowSum(g, i, x, p + 1, |g|) == RowSum(g, i, x, p + 1, n) + g[n][i] * x[n];
  }

  /** On row-echelon form, back-substitution satisfies every equation exactly when every
      zero row has a zero sum. */
  lemma BackSubSolvesReduced(g: Grid, piv: seq<nat>)
    requires IsMatrix(g) && IsEchelon(g, piv)
    ensures Solves(g, BackSub(g)) <==> NoResidue(g)
  {
    var x := BackSub(g);
    var n := |g| - 1;
    forall r | 0 <= r < Height(g)
      ensures Holds(g, r, x) <==> (ZeroRow(g, r) ==> g[n][r] == 0.0)
    {
      EchelonZeroRow(g, piv, r);
      if ZeroRow(g, r) {
        forall c | 0 <= c < n
          ensures g[c][r] == 0.0 || x[c] == 0.0
        {
          if c in piv {
            BeforePivot(g, piv, r, c);
          } else {
            BackSubOffPivots(g, piv, c);
          }
        }
        RowSumVanishes(g, r, x, 0, n);
      } else {
        BackSubSolvesPivotRow(g, piv, r);
      }
    }
  }

  /** On row-echelon form, a vector zero off the pivot columns satisfies a zero row exactly
      when the row's sum is zero: the row has exact zeros in the pivot columns. */
  lemma ReducedZeroRowHolds(g: Grid, piv: seq<nat>, r: nat, x: seq<real>)
    requires IsMatrix(g) && IsEchelon(g, piv) && r < Height(g) && ZeroRow(g, r) && |x| == |g|
    requires ZeroOff(x, piv, |g| - 1)
    ensures Holds(g, r, x) <==> g[|g| - 1][r] == 0.0
  {
    var n := |g| - 1;
    EchelonZeroRow(g, piv, r);
    forall c | 0 <= c < n
      ensures g[c][r] == 0.0 || x[c] == 0.0
    {
      if c in piv {
        BeforePivot(g, piv, r, c);
      }
    }
    RowSumVanishes(g, r, x, 0, n);
  }

  // ---------------------------------------------------------------------------
  // rref keeps the solutions that are zero off the pivot columns
  // ---------------------------------------------------------------------------

  /** Two rows with the same entries have the same equation. */
  lemma {:induction false} RowSumSameRow(t: Grid, rt: nat, s: Grid, rs: nat, x: seq<real>, lo: nat, hi: nat)
    requires IsMatrix(t) && IsMatrix(s) && |t| == |s| == |x| && hi <= |t|
    requires rt < Height(t) && rs < Height(s)
    requires forall c :: lo <= c < hi ==> t[c][rt] == s[c][rs]
    ensures RowSum(t, rt, x, lo, hi) == RowSum(s, rs, x, lo, hi)
    decreases hi
  {
    if hi > lo {
      RowSumSameRow(t, rt, s, rs, x, lo, hi - 1);
    }
  }

  lemma HoldsSameRow(t: Grid, rt: nat, s: Grid, rs: nat, x: seq<real>)
    requires IsMatrix(t) && IsMatrix(s) && |t| == |s| == |x|
    requires rt < Height(t) && rs < Height(s)
    requires forall c :: 0 <= c < |t| ==> t[c][rt] == s[c][rs]
    ensures Holds(t, rt, x) <==> Holds(s, rs, x)
  {
    RowSumSameRow(t, rt, s, rs, x, 0, |t| - 1);
  }

  /** Exchanging two rows exchanges two equations. */
  lemma SwapKeepsSolutions(g: Grid, a: nat, b: nat, x: seq<real>)
    requires IsMatrix(g) && a < Height(g) && b < Height(g) && |x| == |g|
    ensures Solves(SwapRows(g, a, b), x) <==> Solves(g, x)
  {
    var t := SwapRows(g, a, b);
    SwapRowsExchanges(g, a, b);
    forall r | 0 <= r < Height(g)
      ensures Holds(t, r, x) <==> Holds(g, if r == a then b else if r == b then a else r, x)
    {
      HoldsSameRow(t, r, g, if r == a then b else if r == b then a else r, x);
    }
    if Solves(g, x) {
      assert Solves(t, x);
    }
    if Solves(t, x) {
      forall r | 0 <= r < Height(g)
        ensures Holds(g, r, x)
      {
        assert Holds(t, if r == a then b else if r == b then a else r, x);
      }
    }
  }

  /** Below the lead row of a shape kept by `rref`, every term of the columns before col
      vanishes for a vector that is zero off the pivot columns found so far: a pivot column
      has an exact zero there, and any other column a zero in the vector. */
  lemma LeadRowTermsVanish(g: Grid, piv: seq<nat>, col: nat, x: seq<real>)
    requires IsMatrix(g) && EchelonUpTo(g, piv, col) && |piv| < Height(g) && |x| == |g|
    requires forall c :: 0 <= c < col && c !in piv ==> x[c] == 0.0
    ensures forall c :: 0 <= c < col ==> g[c][|piv|] * x[c] == 0.0
  {
    forall c | 0 <= c < col && c in piv
      ensures g[c][|piv|] == 0.0
    {
      var j :| 0 <= j < |piv| && piv[j] == c;
    }
  }

  /** How far row r's equation is from holding: its left side minus its sum. */
  function Residual(g: Grid, r: nat, x: seq<real>): real
    requires IsMatrix(g) && r < Height(g) && |x| == |g|
  {
    RowSum(g, r, x, 0, |g| - 1) - g[|g| - 1][r]
  }

  /** Each term of a row below the lead row after `subtractPivot`. */
  lemma SubtractTerm(s: Grid, col: nat, r: nat, c: nat, x: seq<real>, L: nat, m: real)
    requires IsMatrix(s) && col < |s| && L < r < Height(s) && c < |s| && |x| == |s| && s[col][L] != 0.0
    requires m == s[col][r] / s[col][L]
    requires c < col ==> s[c][L] * x[c] == 0.0
    ensures SubtractedTerm(SubtractPivot(s, col, L), r, s, r, L, x, m, c)
  {
    if col <= c {
      SubtractEntry(s, col, r, c, L, m);
    } else {
      assert SubtractPivot(s, col, L)[c][r] == s[c][r];
    }
  }

  /** An entry from column col on, below the lead row, after `subtractPivot`. */
  lemma SubtractEntry(s: Grid, col: nat, r: nat, c: nat, L: nat, m: real)
    requires IsMatrix(s) && col <= c < |s| && L < r < Height(s) && s[col][L] != 0.0
    requires m == s[col][r] / s[col][L]
    ensures SubtractPivot(s, col, L)[c][r] == s[c][r] - m * s[c][L]
  {
  }

  /** Column c's term of row rt of t is that of row r1 of s less m times that of row r2. */
  predicate SubtractedTerm(t: Grid, rt: nat, s: Grid, r1: nat, r2: nat, x: seq<real>, m: real, c: nat)
    requires IsMatrix(t) && IsMatrix(s) && rt < Height(t) && r1 < Height(s) && r2 < Height(s)
    requires c < |t| && c < |s| && c < |x|
  {
    t[c][rt] * x[c] == s[c][r1] * x[c] - m * (s[c][r2] * x[c])
  }

  /** A row whose terms are those of row r1 less m times those of row r2 sums to the sum of r1
      less m times the sum of r2. */
  lemma {:induction false} RowSumSubtract(t: Grid, rt: nat, s: Grid, r1: nat, r2: nat, x: seq<real>, m: real, hi: nat)
    requires IsMatrix(t) && IsMatrix(s) && |t| == |s| == |x| && hi <= |t|
    requires rt < Height(t) && r1 < Height(s) && r2 < Height(s)
    requires forall c :: 0 <= c < hi ==> SubtractedTerm(t, rt, s, r1, r2, x, m, c)
    ensures RowSum(t, rt, x, 0, hi) == RowSum(s, r1, x, 0, hi) - m * RowSum(s, r2, x, 0, hi)
    decreases hi
  {
    if hi > 0 {
      var c := hi - 1;
      RowSumSubtract(t, rt, s, r1, r2, x, m, c);
      assert SubtractedTerm(t, rt, s, r1, r2, x, m, c);
      SubtractSums(RowSum(t, rt, x, 0, c), RowSum(s, r1, x, 0, c), RowSum(s, r2, x, 0, c),
                   t[c][rt] * x[c], s[c][r1] * x[c], s[c][r2] * x[c], m,
                   RowSum(t, rt, x, 0, hi), RowSum(s, r1, x, 0, hi), RowSum(s, r2, x, 0, hi));
    }
  }

  /** The arithmetic of one step of `RowSumSubtract`. */
  lemma SubtractSums(t0: real, a0: real, b0: real, tx: real, ax: real, bx: real, m: real,
                     t1: real, a1: real, b1: real)
    requires t0 == a0 - m * b0 && tx == ax - m * bx
    requires t1 == t0 + tx && a1 == a0 + ax && b1 == b0 + bx
    ensures t1 == a1 - m * b1
  {
  }

  /** A row whose terms and sum are those of row r less m times those of row L holds exactly
      when row r does, once row L holds. */
  lemma SubtractedRowKeeps(t: Grid, s: Grid, r: nat, L: nat, x: seq<real>, m: real)
    requires IsMatrix(t) && IsMatrix(s) && |t| == |s| == |x| && r < Height(t) && r < Height(s) && L < Height(s)
    requires forall c :: 0 <= c < |s| - 1 ==> SubtractedTerm(t, r, s, r, L, x, m, c)
    requires t[|s| - 1][r] == s[|s| - 1][r] - m * s[|s| - 1][L]
    ensures Holds(s, L, x) ==> (Holds(t, r, x) <==> Holds(s, r, x))
  {
    var n := |s| - 1;
    RowSumSubtract(t, r, s, r, L, x, m, n);
    SubtractedEquations(RowSum(t, r, x, 0, n), t[n][r], RowSum(s, r, x, 0, n), RowSum(s, L, x, 0, n),
                        s[n][r], s[n][L], m);
  }

  /** Once the lead row's equation holds, a row below it holds after `subtractPivot` exactly
      when it held before; m is the multiple of the lead row subtracted from it. */
  lemma SubtractRowKeepsBy(s: Grid, col: nat, x: seq<real>, L: nat, r: nat, m: real)
    requires IsMatrix(s) && col < |s| && L < r < Height(s) && |x| == |s| && s[col][L] != 0.0
    requires m == s[col][r] / s[col][L]
    requires forall c :: 0 <= c < col ==> s[c][L] * x[c] == 0.0
    ensures Holds(s, L, x) ==> (Holds(SubtractPivot(s, col, L), r, x) <==> Holds(s, r, x))
  {
    var t := SubtractPivot(s, col, L);
    forall c | 0 <= c < |s| - 1
      ensures SubtractedTerm(t, r, s, r, L, x, m, c)
    {
      SubtractTerm(s, col, r, c, x, L, m);
    }
    SubtractEntry(s, col, r, |s| - 1, L, m);
    SubtractedRowKeeps(t, s, r, L, x, m);
  }

  /** The arithmetic of `SubtractedRowKeeps`: subtracting a multiple of an equation that holds
      keeps whether another one holds. */
  lemma SubtractedEquations(tsum: real, tlast: real, a: real, b: real, sr: real, sl: real, m: real)
    requires tsum == a - m * b && tlast == sr - m * sl
    ensures b == sl ==> (tsum == tlast <==> a == sr)
  {
  }

  lemma SubtractRowKeeps(s: Grid, col: nat, x: seq<real>, L: nat, r: nat)
    requires IsMatrix(s) && col < |s| && L < r < Height(s) && |x| == |s| && s[col][L] != 0.0
    requires forall c :: 0 <= c < col ==> s[c][L] * x[c] == 0.0
    ensures Holds(s, L, x) ==> (Holds(SubtractPivot(s, col, L), r, x) <==> Holds(s, r, x))
  {
    SubtractRowKeepsBy(s, col, x, L, r, s[col][r] / s[col][L]);
  }

  /** `subtractPivot` replaces each equation below the lead row by itself minus a multiple of
      the lead row's equation, as far as a vector zero off the pivot columns can tell. */
  lemma SubtractKeepsSolutions(s: Grid, piv: seq<nat>, col: nat, x: seq<real>)
    requires IsMatrix(s) && EchelonUpTo(s, piv, col) && col < |s| && |piv| < Height(s) && |x| == |s|
    requires s[col][|piv|] != 0.0
    requires forall c :: 0 <= c < col && c !in piv ==> x[c] == 0.0
    ensures Solves(SubtractPivot(s, col, |piv|), x) <==> Solves(s, x)
  {
    var t := SubtractPivot(s, col, |piv|);
    var L := |piv|;
    LeadRowTermsVanish(s, piv, col, x);
    forall r | 0 <= r < Height(s)
      ensures Holds(s, L, x) ==> (Holds(t, r, x) <==> Holds(s, r, x))
      ensures r <= L ==> (Holds(t, r, x) <==> Holds(s, r, x))
    {
      if r <= L {
        HoldsSameRow(t, r, s, r, x);
      } else {
        SubtractRowKeeps(s, col, x, L, r);
      }
    }
    if Solves(t, x) {
      assert Holds(t, L, x);
    }
  }

  lemma ReduceTerm(s: Grid, col: nat, x: seq<real>, L: nat, c: nat)
    requires IsMatrix(s) && col < |s| && L < Height(s) && |x| == |s| && s[col][L] != 0.0 && c < |s|
    requires c < col ==> s[c][L] * x[c] == 0.0
    ensures ReduceRow(s, col, L)[c][L] * x[c] == s[c][L] * x[c] / s[col][L]
  {
    var t := ReduceRow(s, col, L);
    if col <= c {
      assert t[c][L] == s[c][L] / s[col][L];
    } else {
      assert t[c][L] == s[c][L];
    }
    ScaleTerm(t[c][L], s[c][L], x[c], s[col][L]);
  }

  predicate ScaledTerm(t: Grid, rt: nat, s: Grid, rs: nat, x: seq<real>, d: real, c: nat)
    requires IsMatrix(t) && IsMatrix(s) && rt < Height(t) && rs < Height(s) && c < |t| && c < |s| && c < |x| && d != 0.0
  {
    t[c][rt] * x[c] == s[c][rs] * x[c] / d
  }

  lemma {:induction false} RowSumScale(t: Grid, rt: nat, s: Grid, rs: nat, x: seq<real>, d: real, hi: nat)
    requires IsMatrix(t) && IsMatrix(s) && |t| == |s| == |x| && hi <= |t| && rt < Height(t) && rs < Height(s) && d != 0.0
    requires forall c :: 0 <= c < hi ==> ScaledTerm(t, rt, s, rs, x, d, c)
    ensures RowSum(t, rt, x, 0, hi) == RowSum(s, rs, x, 0, hi) / d
    decreases hi
  {
    if hi > 0 {
      var c := hi - 1;
      RowSumScale(t, rt, s, rs, x, d, c);
      assert ScaledTerm(t, rt, s, rs, x, d, c);
      ScaleSums(RowSum(t, rt, x, 0, c), RowSum(s, rs, x, 0, c), t[c][rt] * x[c], s[c][rs] * x[c], d,
                RowSum(t, rt, x, 0, hi), RowSum(s, rs, x, 0, hi));
    }
  }

  lemma ReduceRowSum(s: Grid, col: nat, x: seq<real>, L: nat)
    requires IsMatrix(s) && col < |s| && L < Height(s) && |x| == |s| && s[col][L] != 0.0
    requires forall c :: 0 <= c < col ==> s[c][L] * x[c] == 0.0
    ensures RowSum(ReduceRow(s, col, L), L, x, 0, |s| - 1) == RowSum(s, L, x, 0, |s| - 1) / s[col][L]
  {
    var t := ReduceRow(s, col, L);
    forall c | 0 <= c < |s| - 1
      ensures ScaledTerm(t, L, s, L, x, s[col][L], c)
    {
      ReduceTerm(s, col, x, L, c);
    }
    RowSumScale(t, L, s, L, x, s[col][L], |s| - 1);
  }

  /** A divided entry gives a divided term, and so does an unchanged entry whose term is zero. */
  lemma ScaleTerm(te: real, e: real, v: real, d: real)
    requires d != 0.0 && (te == e / d || (te == e && e * v == 0.0))
    ensures te * v == e * v / d
  {
  }

  /** The arithmetic of one step of `ReduceRowSum`. */
  lemma ScaleSums(t0: real, b0: real, tx: real, bx: real, d: real, t1: real, b1: real)
    requires d != 0.0 && t0 == b0 / d && tx == bx / d
    requires t1 == t0 + tx && b1 == b0 + bx
    ensures t1 == b1 / d
  {
  }

  /** The residual arithmetic of `ReduceRowResidual`. */
  lemma ScaleResiduals(tsum: real, b: real, tl: real, sl: real, d: real, rt: real, rs: real)
    requires d != 0.0 && tsum == b / d && tl == sl / d
    requires rt == tsum - tl && rs == b - sl
    ensures rt == rs / d
  {
  }

  /** `reduceRow` divides the lead row's residual by a non-zero entry, when the lead row's
      terms before col vanish. */
  lemma ReduceRowResidual(s: Grid, col: nat, x: seq<real>, L: nat)
    requires IsMatrix(s) && col < |s| && L < Height(s) && |x| == |s| && s[col][L] != 0.0
    requires forall c :: 0 <= c < col ==> s[c][L] * x[c] == 0.0
    ensures Residual(ReduceRow(s, col, L), L, x) == Residual(s, L, x) / s[col][L]
  {
    var t := ReduceRow(s, col, L);
    var n := |s| - 1;
    ReduceRowSum(s, col, x, L);
    assert t[n][L] == s[n][L] / s[col][L];
    ScaleResiduals(RowSum(t, L, x, 0, n), RowSum(s, L, x, 0, n), t[n][L], s[n][L], s[col][L],
                   Residual(t, L, x), Residual(s, L, x));
  }

  /** A quotient by a non-zero number is zero exactly when the dividend is. */
  lemma ZeroQuotient(a: real, d: real, q: real)
    requires d != 0.0 && q == a / d
    ensures q == 0.0 <==> a == 0.0
  {
  }

  /** `reduceRow` divides the lead row's equation by a non-zero entry, which keeps whether it
      holds, when the lead row's terms before col vanish. */
  lemma ReduceLeadRowKeeps(s: Grid, col: nat, x: seq<real>, L: nat)
    requires IsMatrix(s) && col < |s| && L < Height(s) && |x| == |s| && s[col][L] != 0.0
    requires forall c :: 0 <= c < col ==> s[c][L] * x[c] == 0.0
    ensures Holds(ReduceRow(s, col, L), L, x) <==> Holds(s, L, x)
  {
    var t := ReduceRow(s, col, L);
    ReduceRowResidual(s, col, x, L);
    ZeroQuotient(Residual(s, L, x), s[col][L], Residual(t, L, x));
  }

  /** `reduceRow` leaves every other row's equation as it is. */
  lemma ReduceOtherRowsKeep(s: Grid, col: nat, L: nat, x: seq<real>)
    requires IsMatrix(s) && col < |s| && L < Height(s) && |x| == |s| && s[col][L] != 0.0
    ensures forall r :: 0 <= r < Height(s) && r != L ==> (Holds(ReduceRow(s, col, L), r, x) <==> Holds(s, r, x))
  {
    var t := ReduceRow(s, col, L);
    forall r | 0 <= r < Height(s) && r != L
      ensures Holds(t, r, x) <==> Holds(s, r, x)
    {
      HoldsSameRow(t, r, s, r, x);
    }
  }

  /** `reduceRow` divides the lead row's equation by a non-zero entry. */
  lemma ReduceKeepsSolutions(s: Grid, piv: seq<nat>, col: nat, x: seq<real>)
    requires IsMatrix(s) && EchelonUpTo(s, piv, col) && col < |s| && |piv| < Height(s) && |x| == |s|
    requires s[col][|piv|] != 0.0
    requires forall c :: 0 <= c < col && c !in piv ==> x[c] == 0.0
    ensures Solves(ReduceRow(s, col, |piv|), x) <==> Solves(s, x)
  {
    LeadRowTermsVanish(s, piv, col, x);
    ReduceLeadRowKeeps(s, col, x, |piv|);
    ReduceOtherRowsKeep(s, col, |piv|, x);
  }

  /** One accepted pivot keeps the equations a vector zero off the pivot columns satisfies. */
  lemma PivotStepKeepsSolutions(g: Grid, piv: seq<nat>, col: nat, p: nat, x: seq<real>)
    requires IsMatrix(g) && EchelonUpTo(g, piv, col) && col < |g| && |piv| <= p < Height(g) && |x| == |g|
    requires g[col][p] != 0.0
    requires ZeroOff(x, piv, col)
    ensures Solves(PivotStep(g, col, |piv|, p), x) <==> Solves(g, x)
  {
    var L := |piv|;
    var g1 := SwapRows(g, L, p);
    SwapKeepsEchelon(g, piv, col, p);
    SwapRowsExchanges(g, L, p);
    SwapKeepsSolutions(g, L, p, x);
    SubtractKeepsEchelon(g1, piv, col);
    SubtractKeepsSolutions(g1, piv, col, x);
    var g2 := SubtractPivot(g1, col, L);
    ReduceKeepsSolutions(g2, piv, col, x);
  }

  /** The pivot columns accepted from column col on are col or later. */
  lemma {:induction false} PivotsFromAbove(g: Grid, lead: nat, col: nat)
    requires IsMatrix(g)
    ensures forall k :: k in PivotsFrom(g, lead, col) ==> col <= k
    decreases |g| - col, 1
  {
    if col < |g| && lead < Height(g) {
      var p := PivotRow(g, col, lead, Height(g));
      if Abs(g[col][p]) > MatrixTolerance {
        PivotsFromAboveAccept(g, lead, col, p);
      } else {
        PivotsFromAboveSkip(g, lead, col, p);
      }
    }
  }

  /** The skipping case of `PivotsFromAbove`. */
  lemma {:induction false} PivotsFromAboveSkip(g: Grid, lead: nat, col: nat, p: nat)
    requires IsMatrix(g) && col < |g| && lead < Height(g)
    requires p == PivotRow(g, col, lead, Height(g)) && Abs(g[col][p]) <= MatrixTolerance
    ensures forall k :: k in PivotsFrom(g, lead, col) ==> col <= k
    decreases |g| - col, 0
  {
    PivotsFromSkip(g, lead, col, p);
    PivotsFromAbove(g, lead, col + 1);
  }

  /** The accepting case of `PivotsFromAbove`. */
  lemma {:induction false} PivotsFromAboveAccept(g: Grid, lead: nat, col: nat, p: nat)
    requires IsMatrix(g) && col < |g| && lead < Height(g)
    requires p == PivotRow(g, col, lead, Height(g)) && Abs(g[col][p]) > MatrixTolerance
    ensures forall k :: k in PivotsFrom(g, lead, col) ==> col <= k
    decreases |g| - col, 0
  {
    var g' := PivotStep(g, col, lead, p);
    PivotsFromAccept(g, lead, col, p, g');
    PivotsFromAbove(g', lead + 1, col + 1);
  }

  /** The rest of `rref`'s loop keeps the equations a vector zero off the final pivot columns
      satisfies. */
  lemma {:induction false} RrefFromKeepsSolutions(g: Grid, piv: seq<nat>, lead: nat, col: nat, x: seq<real>)
    requires IsMatrix(g) && EchelonUpTo(g, piv, col) && lead == |piv| && |x| == |g|
    requires ZeroOff(x, piv + PivotsFrom(g, lead, col), |g| - 1)
    ensures Solves(RrefFrom(g, lead, col), x) <==> Solves(g, x)
    decreases |g| - col, 1
  {
    if col < |g| && lead < Height(g) {
      var p := PivotRow(g, col, lead, Height(g));
      if Abs(g[col][p]) > MatrixTolerance {
        RrefFromPivotKeepsSolutions(g, piv, lead, col, p, x);
      } else {
        SkipKeepsEchelon(g, piv, col);
        PivotsFromSkip(g, lead, col, p);
        assert piv + PivotsFrom(g, lead, col) == piv + PivotsFrom(g, lead, col + 1);
        RrefFromKeepsSolutions(g, piv, lead, col + 1, x);
      }
    }
  }

  /** A vector zero off the final pivot columns is zero off those found before col. */
  lemma ZeroBeforeCol(g: Grid, piv: seq<nat>, col: nat, x: seq<real>)
    requires IsMatrix(g) && col < |g| && |x| == |g|
    requires ZeroOff(x, piv + PivotsFrom(g, |piv|, col), |g| - 1)
    ensures ZeroOff(x, piv, col)
  {
    PivotsFromAbove(g, |piv|, col);
    forall c | 0 <= c < col && c !in piv
      ensures x[c] == 0.0
    {
      assert c !in piv + PivotsFrom(g, |piv|, col);
    }
  }

  /** The accepting case of `RrefFromKeepsSolutions`. */
  lemma {:induction false} RrefFromPivotKeepsSolutions(g: Grid, piv: seq<nat>, lead: nat, col: nat, p: nat, x: seq<real>)
    requires IsMatrix(g) && EchelonUpTo(g, piv, col) && lead == |piv| && col < |g| && lead < Height(g)
    requires |x| == |g|
    requires p == PivotRow(g, col, lead, Height(g)) && Abs(g[col][p]) > MatrixTolerance
    requires ZeroOff(x, piv + PivotsFrom(g, lead, col), |g| - 1)
    ensures Solves(RrefFrom(g, lead, col), x) <==> Solves(g, x)
    decreases |g| - col, 0
  {
    var g' := PivotStep(g, col, lead, p);
    AcceptedPivot(g, piv, lead, col, p, g');
    ZeroBeforeCol(g, piv, col, x);
    PivotKeepsEchelon(g, piv, col, p);
    PivotStepKeepsSolutions(g, piv, col, p, x);
    RrefFromKeepsSolutions(g', piv + [col], lead + 1, col + 1, x);
  }

  /** `rref()` keeps exactly the equations satisfied by a vector that is zero off its pivot columns. */
  lemma RrefKeepsSolutions(g: Grid, x: seq<real>)
    requires IsMatrix(g) && |x| == |g|
    requires forall c :: 0 <= c < |g| - 1 && c !in Pivots(g) ==> x[c] == 0.0
    ensures Solves(Rref(g), x) <==> Solves(g, x)
  {
    assert [] + Pivots(g) == Pivots(g);
    assert ZeroOff(x, [] + PivotsFrom(g, 0, 0), |g| - 1);
    RrefFromKeepsSolutions(g, [], 0, 0, x);
  }

  // ---------------------------------------------------------------------------
  // What `rref()` then `solve()` computes
  // ---------------------------------------------------------------------------

  /** The values `solve()` returns after `rref()` satisfy every original equation exactly when
      every row `rref` reduced to zero has an exactly zero sum; that case is never reported as
      over-constrained. */
  lemma SolveSatisfiesIffNoResidue(g: Grid)
    requires IsMatrix(g)
    ensures Solves(g, BackSub(Rref(g))) <==> NoResidue(Rref(g))
    ensures NoResidue(Rref(g)) ==> !OverConstrained(Rref(g))
  {
    RrefIsEchelon(g);
    var r := Rref(g);
    var piv := Pivots(g);
    var x := BackSub(r);
    forall c | 0 <= c < |g| - 1 && c !in piv
      ensures x[c] == 0.0
    {
      BackSubOffPivots(r, piv, c);
    }
    RrefKeepsSolutions(g, x);
    BackSubSolvesReduced(r, piv);
  }

  /** A solution that is zero off rref's pivot columns leaves no residue, so such a solution
      exists exactly when `solve()`'s values are one (`SolveSatisfiesIffNoResidue`). */
  lemma SolutionLeavesNoResidue(g: Grid, x: seq<real>)
    requires IsMatrix(g) && |x| == |g|
    requires ZeroOff(x, Pivots(g), |g| - 1)
    ensures Solves(g, x) ==> NoResidue(Rref(g))
  {
    RrefIsEchelon(g);
    RrefKeepsSolutions(g, x);
    var s := Rref(g);
    if Solves(g, x) {
      forall r | 0 <= r < Height(s) && ZeroRow(s, r)
        ensures s[|s| - 1][r] == 0.0
      {
        assert Holds(s, r, x);
        ReducedZeroRowHolds(s, Pivots(g), r, x);
      }
    }
  }

  /** `isOverConstrained()` is documented to mean the system has no solution. When the
      reduction is over-constrained, no vector that is zero off the pivot columns satisfies the system. */
  lemma OverConstrainedHasNoSolution(g: Grid, x: seq<real>)
    requires IsMatrix(g) && |x| == |g|
    requires ZeroOff(x, Pivots(g), |g| - 1)
    requires OverConstrained(Rref(g))
    ensures !Solves(g, x)
  {
    SolveSatisfiesIffNoResidue(g);
    SolutionLeavesNoResidue(g, x);
  }

  /** With a pivot in every row and none in the sum column, the values satisfy every equation. */
  lemma FullRankSolves(g: Grid)
    requires IsMatrix(g) && |Pivots(g)| == Height(g) && |g| - 1 !in Pivots(g)
    ensures Solves(g, BackSub(Rref(g)))
  {
    RrefIsEchelon(g);
    var r := Rref(g);
    var piv := Pivots(g);
    forall k | 0 <= k < Height(r)
      ensures !ZeroRow(r, k)
    {
      EchelonZeroRow(r, piv, k);
      assert piv[k] in piv;
    }
    SolveSatisfiesIffNoResidue(g);
  }

  /** `rref` leaves one equation 0.0000001 * v = 0.0000001 as it is: no entry passes its test. */
  lemma NearZeroRrefKeeps()
    ensures var g := [[0.0000001], [0.0000001]];
      && IsMatrix(g) && Rref(g) == g && !OverConstrained(g) && ZeroRow(g, 0)
  {
    var g := [[0.0000001], [0.0000001]];
    assert PivotRow(g, 0, 0, 1) == 0;
    assert PivotRow(g, 1, 0, 1) == 0;
    assert RrefFrom(g, 0, 2) == g;
    assert RrefFrom(g, 0, 1) == g;
  }

  /** One equation 0.0000001 * v = 0.0000001: `rref` finds no pivot, the matrix is not
      over-constrained, and `solve()` returns v = 0, which does not satisfy the equation. */
  lemma NearZeroSumIsDropped()
    ensures var g := [[0.0000001], [0.0000001]];
      && IsMatrix(g) && Rref(g) == g && !OverConstrained(Rref(g))
      && BackSub(Rref(g)) == [0.0, 0.0] && !Solves(g, BackSub(Rref(g)))
  {
    var g := [[0.0000001], [0.0000001]];
    NearZeroRrefKeeps();
    assert BackSubFrom(g, 1) == [0.0, 0.0];
    assert BackSubFrom(g, 0) == BackSubFrom(g, 1);
    assert RowSum(g, 0, [0.0, 0.0], 0, 1) == 0.0;
    assert !Holds(g, 0, [0.0, 0.0]);
  }

  /** One equation a*v = 1 with a coefficient within tolerance of zero: `rref` accepts only
      the sum column as a pivot, so the reduction is reported both over- and
      under-constrained. */
  lemma NearZeroEquationDiagnostics(a: real)
    requires Abs(a) <= MatrixTolerance
    ensures var g := [[a], [1.0]];
      && IsMatrix(g) && Rref(g) == g && Pivots(g) == [1]
      && OverConstrained(Rref(g)) && UnderConstrained(Rref(g))
  {
    var g := [[a], [1.0]];
    assert PivotRow(g, 0, 0, 1) == 0;
    assert PivotRow(g, 1, 0, 1) == 0;
    var t := SubtractPivot(SwapRows(g, 0, 0), 1, 0);
    assert t[0] == g[0] && t[1] == g[1];
    var u := ReduceRow(t, 1, 0);
    assert u[0] == g[0] && u[1] == g[1];
    assert PivotStep(g, 1, 0, 0) == g;
    assert RrefFrom(g, 1, 2) == g;
    assert RrefFrom(g, 0, 1) == g;
    assert PivotsFrom(g, 0, 1) == [1];
    assert ZeroRow(g, 0);
    assert Rank(g, 1) == 0;
  }

  /** 0*v = 1 has no solution at all, yet it is reported under-constrained, the diagnostic
      documented to mean that several solutions exist. */
  lemma UnsolvableUnderConstrained()
    ensures var g := [[0.0], [1.0]];
      && IsMatrix(g) && OverConstrained(Rref(g)) && UnderConstrained(Rref(g))
      && forall x :: |x| == 2 ==> !Solves(g, x)
  {
    var g := [[0.0], [1.0]];
    NearZeroEquationDiagnostics(0.0);
    forall x | |x| == 2
      ensures !Solves(g, x)
    {
      assert RowSum(g, 0, x, 0, 1) == 0.0;
      assert !Holds(g, 0, x);
    }
  }

  /** 0.0000001*v = 1 is solved by v = 10000000, yet it is reported over-constrained, the
      diagnostic documented to mean that no solution exists; the solution is not zero off the pivot
      columns, which `OverConstrainedHasNoSolution` needs. */
  lemma SolvableOverConstrained()
    ensures var g := [[0.0000001], [1.0]];
      && IsMatrix(g) && OverConstrained(Rref(g)) && Solves(g, [10000000.0, 0.0])
  {
    var g := [[0.0000001], [1.0]];
    NearZeroEquationDiagnostics(0.0000001);
    assert RowSum(g, 0, [10000000.0, 0.0], 0, 1) == 1.0;
    assert Holds(g, 0, [10000000.0, 0.0]);
  }
}
