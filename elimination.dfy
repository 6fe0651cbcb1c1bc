/** Gaussian elimination with partial pivoting as values: the states that
    solveSystem's working matrix goes through, and what they preserve.
    A state is an augmented system of n rows, each holding n coefficients
    and, in column n, the right-hand side. */
module Elimination {
  import opened Sums

  type Matrix = seq<seq<real>>

  predicate IsSquare(A: Matrix)
  {
    forall r :: 0 <= r < |A| ==> |A[r]| == |A|
  }

  /** n rows of n + 1 entries. */
  predicate IsAugmented(M: Matrix)
  {
    forall r :: 0 <= r < |M| ==> |M[r]| == |M| + 1
  }

  /** Every row of A with v's entry appended, as row.concat(V[i]) builds it. */
  function Augment(A: Matrix, v: seq<real>): (M: Matrix)
    requires IsSquare(A) && |v| >= |A|
    ensures |M| == |A| && IsAugmented(M)
    ensures forall r, c :: 0 <= r < |A| && 0 <= c < |A| ==> M[r][c] == A[r][c]
    ensures forall r :: 0 <= r < |A| ==> M[r][|A|] == v[r]
  {
    seq(|A|, r requires 0 <= r < |A| => A[r] + [v[r]])
  }

  function Abs(x: real): (a: real)
    ensures a >= 0.0 && (a == x || a == -x)
  {
    if x < 0.0 then -x else x
  }

  /** The scan for the pivot of column i: rows k, k+1, … are compared in
      order against the best row so far, and a row replaces it only when it
      is strictly larger in magnitude. */
  function PivotScan(M: Matrix, i: int, k: int, best: int): (p: int)
    requires IsAugmented(M) && 0 <= i <= best < k <= |M|
    ensures best <= p < |M|
    decreases |M| - k
  {
    if k == |M| then best
    else PivotScan(M, i, k + 1, if Abs(M[k][i]) > Abs(M[best][i]) then k else best)
  }

  /** A scan that starts from a row of largest magnitude among rows i..k-1,
      and the first such, ends at a row of largest magnitude among rows
      i..n-1, and the first such. */
  lemma {:induction false} PivotScanBest(M: Matrix, i: int, k: int, best: int)
    requires IsAugmented(M) && 0 <= i <= best < k <= |M|
    requires forall m :: i <= m < k ==> Abs(M[m][i]) <= Abs(M[best][i])
    requires forall m :: i <= m < best ==> Abs(M[m][i]) < Abs(M[best][i])
    ensures forall m :: i <= m < |M| ==> Abs(M[m][i]) <= Abs(M[PivotScan(M, i, k, best)][i])
    ensures forall m :: i <= m < PivotScan(M, i, k, best) ==> Abs(M[m][i]) < Abs(M[PivotScan(M, i, k, best)][i])
    decreases |M| - k
  {
    if k < |M| {
      PivotScanBest(M, i, k + 1, if Abs(M[k][i]) > Abs(M[best][i]) then k else best);
    }
  }

  /** The pivot row for column i: of largest magnitude in column i among
      rows i..n-1, and the first such row on ties. */
  function PivotRow(M: Matrix, i: int): (p: int)
    requires IsAugmented(M) && 0 <= i < |M|
    ensures i <= p < |M|
    ensures forall m :: i <= m < |M| ==> Abs(M[m][i]) <= Abs(M[p][i])
    ensures forall m :: i <= m < p ==> Abs(M[m][i]) < Abs(M[p][i])
  {
    PivotScanBest(M, i, i + 1, i);
    PivotScan(M, i, i + 1, i)
  }

  /** Rows i and p exchanged. */
  function SwapRows(M: Matrix, i: int, p: int): (S: Matrix)
    requires 0 <= i < |M| && 0 <= p < |M|
    ensures |S| == |M| && S[i] == M[p] && S[p] == M[i]
    ensures forall r :: 0 <= r < |M| && r != i && r != p ==> S[r] == M[r]
    ensures IsAugmented(M) ==> IsAugmented(S)
  {
    M[i := M[p]][p := M[i]]
  }

  /** Row minus (row[i] / pivotRow[i]) times the pivot row, from column i
      on; the entries before column i are left as they are. */
  function EliminateRow(pivotRow: seq<real>, row: seq<real>, i: int): (e: seq<real>)
    requires |pivotRow| == |row| && 0 <= i < |row| && pivotRow[i] != 0.0
    ensures |e| == |row|
    ensures e[i] == 0.0
    ensures forall c :: 0 <= c < i ==> e[c] == row[c]
    ensures forall c :: i <= c < |row| ==> e[c] == row[c] - (row[i] / pivotRow[i]) * pivotRow[c]
  {
    var f := row[i] / pivotRow[i];
    seq(|row|, c requires 0 <= c < |row| => if c < i then row[c] else row[c] - f * pivotRow[c])
  }

  /** Every row below row i has row i's multiple subtracted. */
  function EliminateBelow(M: Matrix, i: int): (E: Matrix)
    requires IsAugmented(M) && 0 <= i < |M| && M[i][i] != 0.0
    ensures |E| == |M| && IsAugmented(E)
    ensures forall k :: 0 <= k <= i ==> E[k] == M[k]
    ensures forall k :: i < k < |M| ==> E[k] == EliminateRow(M[i], M[k], i)
  {
    seq(|M|, k requires 0 <= k < |M| => if k <= i then M[k] else EliminateRow(M[i], M[k], i))
  }

  /** One pass of the outer loop: select the pivot, swap it into row i,
      eliminate below it. */
  function Step(M: Matrix, i: int): (N: Matrix)
    requires IsAugmented(M) && 0 <= i < |M| && M[PivotRow(M, i)][i] != 0.0
    ensures |N| == |M| && IsAugmented(N)
    ensures forall r :: 0 <= r < i ==> N[r] == M[r]
    ensures N[i] == M[PivotRow(M, i)]
    ensures forall k :: i < k < |M| ==> N[k][i] == 0.0
  {
    EliminateBelow(SwapRows(M, i, PivotRow(M, i)), i)
  }

  /** Every pivot met from pass i on is nonzero, so every division the
      elimination performs is defined. In particular column i is not zero
      from row i down. */
  predicate PivotsOk(M: Matrix, i: int)
    requires IsAugmented(M) && 0 <= i <= |M|
    ensures PivotsOk(M, i) && i < |M| ==> exists r :: i <= r < |M| && M[r][i] != 0.0
    decreases |M| - i
  {
    i == |M| || (M[PivotRow(M, i)][i] != 0.0 && PivotsOk(Step(M, i), i + 1))
  }

  /** The working matrix after the passes i..n-1 of forward elimination.
      Those passes leave rows 0..i-1 as they are. */
  function Forward(M: Matrix, i: int): (U: Matrix)
    requires IsAugmented(M) && 0 <= i <= |M| && PivotsOk(M, i)
    ensures |U| == |M| && IsAugmented(U)
    ensures forall r :: 0 <= r < i ==> U[r] == M[r]
    decreases |M| - i
  {
    if i == |M| then M
    else
      var N := Step(M, i);
      assert forall r :: 0 <= r < i ==> N[r] == M[r];
      Forward(N, i + 1)
  }

  /** No pivot met while eliminating A is zero, whatever the right-hand side
      (see PivotsIgnoreRhs). */
  predicate PivotsNonzero(A: Matrix)
    requires IsSquare(A)
  {
    PivotsOk(Augment(A, seq(|A|, _ => 0.0)), 0)
  }

  /** Columns 0..i-1 are eliminated below the diagonal, and the diagonal
      entries of rows 0..i-1 are nonzero. */
  predicate ReducedBefore(M: Matrix, i: int)
    requires IsAugmented(M) && 0 <= i <= |M|
  {
    && (forall r, c :: 0 <= c < i && c < r < |M| ==> M[r][c] == 0.0)
    && (forall r :: 0 <= r < i ==> M[r][r] != 0.0)
  }

  /** Upper triangular with a nonzero diagonal. */
  predicate UpperTriangular(M: Matrix)
    requires IsAugmented(M)
  {
    ReducedBefore(M, |M|)
  }

  /** x satisfies every equation of the augmented system M. */
  predicate Satisfies(M: Matrix, x: seq<real>)
    requires IsAugmented(M)
  {
    |x| == |M| && forall r :: 0 <= r < |M| ==> Sum(M[r], x, 0, |M|) == M[r][|M|]
  }

  /** Exchanging two equations does not change the solutions. */
  lemma SwapSolutions(M: Matrix, i: int, p: int, x: seq<real>)
    requires IsAugmented(M) && 0 <= i < |M| && 0 <= p < |M|
    ensures Satisfies(SwapRows(M, i, p), x) <==> Satisfies(M, x)
  {
    var S := SwapRows(M, i, p);
    if Satisfies(M, x) {
      forall r | 0 <= r < |M| ensures Sum(S[r], x, 0, |M|) == S[r][|M|] {
        var r' := if r == i then p else if r == p then i else r;
        assert S[r] == M[r'];
      }
    }
    if Satisfies(S, x) {
      forall r | 0 <= r < |M| ensures Sum(M[r], x, 0, |M|) == M[r][|M|] {
        var r' := if r == i then p else if r == p then i else r;
        assert M[r] == S[r'];
      }
    }
  }

  /** Row k > i of EliminateBelow(M, i) is row k of M minus f times row i,
      f = M[k][i] / M[i][i], in every column once row i is zero before
      column i. */
  lemma EliminatedRowEntries(M: Matrix, i: int, k: int)
    requires IsAugmented(M) && 0 <= i < k < |M| && M[i][i] != 0.0
    requires forall c :: 0 <= c < i ==> M[i][c] == 0.0
    ensures EliminateBelow(M, i)[k] == Combine(M[k], M[i], M[k][i] / M[i][i])
  {
    var e := EliminateBelow(M, i)[k];
    var w := Combine(M[k], M[i], M[k][i] / M[i][i]);
    assert e == EliminateRow(M[i], M[k], i);
    forall c | 0 <= c < |e| ensures e[c] == w[c] {
      if c < i {
        assert M[i][c] == 0.0;
      }
    }
  }

  /** The residual of the equation u - f·v at x is that of u, when x
      satisfies v. */
  lemma CombinedEquation(u: seq<real>, v: seq<real>, x: seq<real>, f: real)
    requires |u| == |v| == |x| + 1
    requires Sum(v, x, 0, |x|) == v[|x|]
    ensures Sum(Combine(u, v, f), x, 0, |x|) - Combine(u, v, f)[|x|] == Sum(u, x, 0, |x|) - u[|x|]
  {
    var n := |x|;
    SumCombination(u, v, x, f, 0, n);
  }

  /** Subtracting multiples of a pivot row whose entries before column i are
      zero does not change the solutions. */
  lemma EliminateSolutions(M: Matrix, i: int, x: seq<real>)
    requires IsAugmented(M) && 0 <= i < |M| && M[i][i] != 0.0
    requires forall c :: 0 <= c < i ==> M[i][c] == 0.0
    ensures Satisfies(EliminateBelow(M, i), x) <==> Satisfies(M, x)
  {
    var n := |M|;
    var E := EliminateBelow(M, i);
    if |x| == n && (Satisfies(M, x) || Satisfies(E, x)) {
      assert E[i] == M[i];
      assert Sum(M[i], x, 0, n) == M[i][n];
      forall k | i < k < n
        ensures Sum(E[k], x, 0, n) == E[k][n] <==> Sum(M[k], x, 0, n) == M[k][n]
      {
        EliminatedRowEntries(M, i, k);
        CombinedEquation(M[k], M[i], x, M[k][i] / M[i][i]);
      }
    }
  }

  /** One pass extends the eliminated part by column i and keeps the
      solutions. */
  lemma StepReduces(M: Matrix, i: int)
    requires IsAugmented(M) && 0 <= i < |M| && ReducedBefore(M, i)
    requires M[PivotRow(M, i)][i] != 0.0
    ensures ReducedBefore(Step(M, i), i + 1)
    ensures forall x :: Satisfies(Step(M, i), x) <==> Satisfies(M, x)
  {
    var p := PivotRow(M, i);
    var S := SwapRows(M, i, p);
    var E := EliminateBelow(S, i);
    assert ReducedBefore(S, i) by {
      forall r, c | 0 <= c < i && c < r < |M| ensures S[r][c] == 0.0 {
        var r' := if r == i then p else if r == p then i else r;
        assert S[r] == M[r'];
      }
    }
    forall x ensures Satisfies(E, x) <==> Satisfies(M, x) {
      SwapSolutions(M, i, p, x);
      EliminateSolutions(S, i, x);
    }
  }

  /** Forward elimination ends upper triangular and keeps the solutions. */
  lemma {:induction false} ForwardReduces(M: Matrix, i: int)
    requires IsAugmented(M) && 0 <= i <= |M| && ReducedBefore(M, i) && PivotsOk(M, i)
    ensures UpperTriangular(Forward(M, i))
    ensures forall x :: Satisfies(Forward(M, i), x) <==> Satisfies(M, x)
    decreases |M| - i
  {
    if i < |M| {
      StepReduces(M, i);
      ForwardReduces(Step(M, i), i + 1);
    }
  }

  /** Two augmented systems with the same coefficient columns. */
  predicate SameCoefficients(M: Matrix, N: Matrix)
  {
    && |M| == |N| && IsAugmented(M) && IsAugmented(N)
    && forall r, c :: 0 <= r < |M| && 0 <= c < |M| ==> M[r][c] == N[r][c]
  }

  lemma {:induction false} PivotScanSame(M: Matrix, N: Matrix, i: int, k: int, best: int)
    requires SameCoefficients(M, N) && 0 <= i <= best < k <= |M|
    ensures PivotScan(M, i, k, best) == PivotScan(N, i, k, best)
    decreases |M| - k
  {
    if k < |M| {
      assert M[k][i] == N[k][i] && M[best][i] == N[best][i];
      PivotScanSame(M, N, i, k + 1, if Abs(M[k][i]) > Abs(M[best][i]) then k else best);
    }
  }

  /** Eliminating with rows that agree on the first m columns gives rows
      that agree on the first m columns. */
  lemma EliminateRowSame(p: seq<real>, row: seq<real>, p': seq<real>, row': seq<real>, i: int, m: int)
    requires |p| == |row| == |p'| == |row'| && 0 <= i < m <= |row| && p[i] != 0.0
    requires forall c :: 0 <= c < m ==> p[c] == p'[c] && row[c] == row'[c]
    ensures forall c :: 0 <= c < m ==> EliminateRow(p, row, i)[c] == EliminateRow(p', row', i)[c]
  {
    var f := row[i] / p[i];
    assert f == row'[i] / p'[i];
    forall c | i <= c < m ensures EliminateRow(p, row, i)[c] == EliminateRow(p', row', i)[c] {
      assert f * p[c] == f * p'[c];
    }
  }

  lemma EliminateSame(M: Matrix, N: Matrix, i: int)
    requires SameCoefficients(M, N) && 0 <= i < |M| && M[i][i] != 0.0
    ensures SameCoefficients(EliminateBelow(M, i), EliminateBelow(N, i))
  {
    var EM, EN := EliminateBelow(M, i), EliminateBelow(N, i);
    forall r | i < r < |M| ensures forall c :: 0 <= c < |M| ==> EM[r][c] == EN[r][c] {
      EliminateRowSame(M[i], M[r], N[i], N[r], i, |M|);
    }
  }

  lemma StepSame(M: Matrix, N: Matrix, i: int)
    requires SameCoefficients(M, N) && 0 <= i < |M|
    ensures PivotRow(M, i) == PivotRow(N, i)
    ensures M[PivotRow(M, i)][i] == N[PivotRow(N, i)][i]
    ensures M[PivotRow(M, i)][i] != 0.0 ==> SameCoefficients(Step(M, i), Step(N, i))
  {
    PivotScanSame(M, N, i, i + 1, i);
    var p := PivotRow(M, i);
    if M[p][i] != 0.0 {
      var SM, SN := SwapRows(M, i, p), SwapRows(N, i, p);
      assert SameCoefficients(SM, SN) by {
        forall r, c | 0 <= r < |M| && 0 <= c < |M| ensures SM[r][c] == SN[r][c] {
          var r' := if r == i then p else if r == p then i else r;
          assert SM[r] == M[r'] && SN[r] == N[r'];
        }
      }
      EliminateSame(SM, SN, i);
    }
  }

  lemma {:induction false} PivotsOkSame(M: Matrix, N: Matrix, i: int)
    requires SameCoefficients(M, N) && 0 <= i <= |M|
    ensures PivotsOk(M, i) <==> PivotsOk(N, i)
    decreases |M| - i
  {
    if i < |M| {
      StepSame(M, N, i);
      var p := PivotRow(M, i);
      if M[p][i] != 0.0 {
        PivotsOkSame(Step(M, i), Step(N, i), i + 1);
        assert PivotsOk(M, i) == PivotsOk(Step(M, i), i + 1);
        assert PivotsOk(N, i) == PivotsOk(Step(N, i), i + 1);
      } else {
        assert !PivotsOk(M, i) && !PivotsOk(N, i);
      }
    }
  }

  /** Pivot selection never looks at the right-hand side, so whether a zero
      pivot is met depends on the coefficient matrix alone. */
  lemma PivotsIgnoreRhs(A: Matrix, v: seq<real>)
    requires IsSquare(A) && |v| >= |A|
    ensures PivotsOk(Augment(A, v), 0) <==> PivotsNonzero(A)
  {
    PivotsOkSame(Augment(A, v), Augment(A, seq(|A|, _ => 0.0)), 0);
  }

  /** A solution of the augmented system [A | v] solves A·x = v. */
  lemma AugmentedSolution(A: Matrix, v: seq<real>, x: seq<real>)
    requires IsSquare(A) && |v| >= |A| && Satisfies(Augment(A, v), x)
    ensures |x| == |A|
    ensures forall r :: 0 <= r < |A| ==> Dot(A[r], x) == v[r]
  {
    var M := Augment(A, v);
    forall r | 0 <= r < |A| ensures Dot(A[r], x) == v[r] {
      SumAgree(A[r], x, M[r], x, 0, |A|);
    }
  }

  /** An upper triangular system with a nonzero diagonal has at most one
      solution: rows r..n-1 fix the unknowns r..n-1. */
  lemma {:induction false} TriangularAgree(U: Matrix, x: seq<real>, y: seq<real>, r: int)
    requires IsAugmented(U) && UpperTriangular(U) && Satisfies(U, x) && Satisfies(U, y)
    requires 0 <= r <= |U|
    ensures forall c :: r <= c < |U| ==> x[c] == y[c]
    decreases |U| - r
  {
    var n := |U|;
    if r < n {
      TriangularAgree(U, x, y, r + 1);
      assert forall j :: 0 <= j < r ==> U[r][j] == 0.0;
      RowFixesUnknown(U[r], x, y, r);
    }
  }

  /** An equation whose first nonzero coefficient is at column r, satisfied
      by x and y which agree after r, makes them agree at r too. */
  lemma RowFixesUnknown(row: seq<real>, x: seq<real>, y: seq<real>, r: int)
    requires |row| == |x| + 1 && |y| == |x| && 0 <= r < |x| && row[r] != 0.0
    requires forall j :: 0 <= j < r ==> row[j] == 0.0
    requires forall c :: r < c < |x| ==> x[c] == y[c]
    requires Sum(row, x, 0, |x|) == row[|x|] && Sum(row, y, 0, |x|) == row[|x|]
    ensures x[r] == y[r]
  {
    var n := |x|;
    SumZeroPrefix(row, x, r, n);
    SumZeroPrefix(row, y, r, n);
    SumPeel(row, x, r, n);
    SumPeel(row, y, r, n);
    SumAgree(row, x, row, y, r + 1, n);
    CancelPivot(row[r], x[r], y[r], Sum(row, x, r + 1, n), Sum(row, y, r + 1, n));
  }

  /** d·u + s == d·w + s with d nonzero gives u == w. */
  lemma CancelPivot(d: real, u: real, w: real, s: real, t: real)
    requires d != 0.0 && d * u + s == d * w + t && s == t
    ensures u == w
  {
    assert d * u == d * w;
    assert u == (d * u) / d;
    assert w == (d * w) / d;
  }

  /** With every pivot nonzero, A·x = v has exactly one solution, so the
      result of the elimination is determined by A and v. */
  lemma SolutionUnique(A: Matrix, v: seq<real>, x: seq<real>, y: seq<real>)
    requires IsSquare(A) && |v| >= |A| && PivotsOk(Augment(A, v), 0)
    requires |x| == |A| && forall r :: 0 <= r < |A| ==> Dot(A[r], x) == v[r]
    requires |y| == |A| && forall r :: 0 <= r < |A| ==> Dot(A[r], y) == v[r]
    ensures x == y
  {
    var M := Augment(A, v);
    AugmentedSatisfies(A, v, x);
    AugmentedSatisfies(A, v, y);
    ForwardReduces(M, 0);
    var U := Forward(M, 0);
    assert Satisfies(U, x) && Satisfies(U, y);
    TriangularAgree(U, x, y, 0);
  }

  /** A solution of A·x = v solves the augmented system [A | v]. */
  lemma AugmentedSatisfies(A: Matrix, v: seq<real>, x: seq<real>)
    requires IsSquare(A) && |v| >= |A|
    requires |x| == |A| && forall r :: 0 <= r < |A| ==> Dot(A[r], x) == v[r]
    ensures Satisfies(Augment(A, v), x)
  {
    var M := Augment(A, v);
    forall r | 0 <= r < |A| ensures Sum(M[r], x, 0, |A|) == M[r][|A|] {
      SumAgree(A[r], x, M[r], x, 0, |A|);
    }
  }
}
