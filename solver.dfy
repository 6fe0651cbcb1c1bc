/** solveSystem: Gaussian elimination with partial pivoting on a private
    augmented copy of the system, then back substitution. The working
    matrix is an array of row arrays, so that a row exchange swaps two row
    references, as the source does; a ghost value S follows it through the
    states that the Elimination module describes. */
module Solver {
  import opened Sums
  import opened Elimination

  /** The entries of a 2-D array as a value. */
  ghost function Grid(L: array2<real>): (A: Matrix)
    reads L
    ensures |A| == L.Length0
    ensures forall i :: 0 <= i < L.Length0 ==> |A[i]| == L.Length1
    ensures forall i, j :: 0 <= i < L.Length0 && 0 <= j < L.Length1 ==> A[i][j] == L[i, j]
  {
    seq(L.Length0, i requires 0 <= i < L.Length0 reads L =>
      seq(L.Length1, j requires 0 <= j < L.Length1 reads L => L[i, j]))
  }

  /** No two rows of the working matrix are the same array. */
  ghost predicate DistinctRows(a: array<array<real>>)
    reads a
  {
    forall r, r' :: 0 <= r < r' < a.Length ==> a[r] != a[r']
  }

  /** The working matrix a holds the augmented system S, row by row. */
  ghost predicate Holds(a: array<array<real>>, S: Matrix)
    reads a, set r | 0 <= r < a.Length :: a[r]
  {
    && a.Length == |S| && IsAugmented(S) && DistinctRows(a)
    && forall r :: 0 <= r < a.Length ==> a[r][..] == S[r]
  }

  /** L.map((row, i) => row.concat(V[i])): fresh rows holding L's rows with
      V's entries appended. */
  method AugmentedCopy(L: array2<real>, V: seq<real>) returns (a: array<array<real>>)
    requires L.Length1 == L.Length0 && |V| >= L.Length0
    ensures fresh(a) && (forall r :: 0 <= r < a.Length ==> fresh(a[r]))
    ensures Holds(a, Augment(Grid(L), V))
  {
    var n := L.Length0;
    ghost var M := Augment(Grid(L), V);
    var rows: seq<array<real>> := [];
    for r := 0 to n
      invariant |rows| == r
      invariant forall k :: 0 <= k < r ==> fresh(rows[k])
      invariant forall k, k' :: 0 <= k < k' < r ==> rows[k] != rows[k']
      invariant forall k :: 0 <= k < r ==> rows[k][..] == M[k]
    {
      var row := new real[n + 1](c reads L requires 0 <= c <= n => if c < n then L[r, c] else V[r]);
      assert row[..] == M[r];
      rows := rows + [row];
    }
    a := new array<real>[n](k requires 0 <= k < n => rows[k]);
  }

  /** The pivot search of pass i: the first row of largest magnitude in
      column i among rows i..n-1 (a later row wins only when strictly
      larger). */
  method FindPivot(a: array<array<real>>, i: int, ghost S: Matrix) returns (maxRow: int)
    requires Holds(a, S) && 0 <= i < a.Length
    ensures maxRow == PivotRow(S, i)
  {
    maxRow := i;
    for k := i + 1 to a.Length
      invariant i <= maxRow < k
      invariant PivotScan(S, i, k, maxRow) == PivotRow(S, i)
    {
      assert a[k][i] == a[k][..][i] == S[k][i];
      assert a[maxRow][i] == a[maxRow][..][i] == S[maxRow][i];
      if Abs(a[k][i]) > Abs(a[maxRow][i]) {
        maxRow := k;
      }
    }
  }

  /** [a[i], a[p]] = [a[p], a[i]]: the two row references are exchanged. */
  method ExchangeRows(a: array<array<real>>, i: int, p: int, ghost S: Matrix)
    requires Holds(a, S) && 0 <= i < a.Length && 0 <= p < a.Length
    modifies a
    ensures Holds(a, SwapRows(S, i, p))
    ensures a[..] == old(a[..])[i := old(a[p])][p := old(a[i])]
  {
    a[i], a[p] := a[p], a[i];
  }

  /** The inner loop of pass i for one row below the pivot: with
      factor = row[i] / pivot[i], row[j] -= factor * pivot[j] for j = i..n. */
  method EliminateInRow(pivot: array<real>, row: array<real>, i: int)
    requires pivot != row && pivot.Length == row.Length && 0 <= i < row.Length && pivot[i] != 0.0
    modifies row
    ensures row[..] == EliminateRow(pivot[..], old(row[..]), i)
  {
    ghost var e := EliminateRow(pivot[..], row[..], i);
    var factor := row[i] / pivot[i];
    for j := i to row.Length
      invariant forall c :: 0 <= c < row.Length ==> row[c] == if i <= c < j then e[c] else old(row[c])
    {
      row[j] := row[j] - factor * pivot[j];
    }
    assert row[..] == e;
  }

  /** The elimination of pass i: every row below the pivot row has
      (a[k][i] / a[i][i]) times the pivot row subtracted, from column i on. */
  method EliminateColumn(a: array<array<real>>, i: int, ghost S: Matrix)
    requires Holds(a, S) && 0 <= i < a.Length && S[i][i] != 0.0
    modifies set r | i < r < a.Length :: a[r]
    ensures Holds(a, EliminateBelow(S, i))
    ensures unchanged(a)
  {
    var n := a.Length;
    ghost var E := EliminateBelow(S, i);
    for k := i + 1 to n
      invariant forall r :: 0 <= r < n ==> a[r][..] == if r < k then E[r] else S[r]
    {
      assert a[i][i] == a[i][..][i];
      EliminateInRow(a[i], a[k], i);
    }
  }

  /** An upper triangular row solved for its diagonal unknown. */
  lemma SolvedRow(u: seq<real>, x: seq<real>, i: int)
    requires |u| == |x| + 1 && 0 <= i < |x| && u[i] != 0.0
    requires x[i] == (u[|x|] - Sum(u, x, i + 1, |x|)) / u[i]
    ensures Sum(u, x, i, |x|) == u[|x|]
  {
    SumPeel(u, x, i, |x|);
    var rest := u[|x|] - Sum(u, x, i + 1, |x|);
    assert u[i] * (rest / u[i]) == rest;
  }

  /** Taking x[i]'s share off a right-hand side that still lacks the terms
      from i on leaves one that lacks the terms after i only. */
  lemma ShareTaken(u: seq<real>, x: seq<real>, i: int, rhs: real)
    requires |u| == |x| + 1 && 0 <= i < |x|
    requires rhs == u[|x|] - Sum(u, x, i + 1, |x|)
    ensures rhs - u[i] * x[i] == u[|x|] - Sum(u, x, i, |x|)
  {
    SumPeel(u, x, i, |x|);
  }

  /** The rows of a hold U's coefficients with the right-hand sides B. */
  ghost predicate HoldsWithRhs(a: array<array<real>>, U: Matrix, B: seq<real>)
    reads a, set r | 0 <= r < a.Length :: a[r]
  {
    && a.Length == |U| && |B| == |U| && IsAugmented(U) && DistinctRows(a)
    && forall r :: 0 <= r < a.Length ==> a[r][..] == U[r][a.Length := B[r]]
  }

  /** Before back substitution, the right-hand sides are those of U. */
  lemma HeldRhs(a: array<array<real>>, U: Matrix, B: seq<real>)
    requires Holds(a, U) && |B| == |U|
    requires forall r :: 0 <= r < |U| ==> B[r] == U[r][|U|]
    ensures HoldsWithRhs(a, U, B)
  {
    forall r | 0 <= r < a.Length ensures a[r][..] == U[r][a.Length := B[r]] {
      assert U[r][a.Length := B[r]] == U[r];
    }
  }

  /** a[k][n] := v, which sets the right-hand side of row k. */
  method SetRhs(a: array<array<real>>, ghost U: Matrix, ghost B: seq<real>, k: int, v: real)
    requires HoldsWithRhs(a, U, B) && 0 <= k < a.Length
    modifies a[k]
    ensures HoldsWithRhs(a, U, B[k := v])
  {
    a[k][a.Length] := v;
  }

  /** While x[i]'s share is taken off rows k+1..i-1 (done) and rows 0..k
      (to do), B holds each row's right-hand side less the known terms. */
  ghost predicate Pending(U: Matrix, x: seq<real>, B: seq<real>, i: int, k: int)
  {
    && IsAugmented(U) && |B| == |U| && |x| == |U| && 0 <= i < |U| && -1 <= k < i
    && (forall r :: 0 <= r <= k ==> B[r] == U[r][|U|] - Sum(U[r], x, i + 1, |U|))
    && (forall r :: k < r < i ==> B[r] == U[r][|U|] - Sum(U[r], x, i, |U|))
  }

  lemma PendingStep(U: Matrix, x: seq<real>, B: seq<real>, i: int, k: int)
    requires Pending(U, x, B, i, k) && 0 <= k
    ensures Pending(U, x, B[k := B[k] - U[k][i] * x[i]], i, k - 1)
  {
    ShareTaken(U[k], x, i, B[k]);
  }

  /** One step of the inner loop of back substitution:
      a[k][n] -= a[k][i] * x[i]. */
  method TakeShareFromRow(a: array<array<real>>, ghost U: Matrix, i: int, xi: real, ghost x: seq<real>, ghost B: seq<real>, k: int)
    returns (ghost B': seq<real>)
    requires HoldsWithRhs(a, U, B) && 0 <= k < i < a.Length && |x| == a.Length && x[i] == xi
    requires Pending(U, x, B, i, k)
    modifies a[k]
    ensures HoldsWithRhs(a, U, B')
    ensures Pending(U, x, B', i, k - 1)
    ensures forall r :: i <= r < a.Length ==> B'[r] == B[r]
  {
    var n := a.Length;
    var rhs, coeff := a[k][n], a[k][i];
    assert rhs == a[k][..][n] == B[k];
    assert coeff == a[k][..][i] == U[k][i];
    var v := rhs - coeff * xi;
    assert v == B[k] - U[k][i] * x[i];
    PendingStep(U, x, B, i, k);
    SetRhs(a, U, B, k, v);
    B' := B[k := v];
  }

  /** The inner loop of back substitution: for k = i-1 down to 0,
      a[k][n] -= a[k][i] * x[i]. The right-hand sides B become B'. */
  method TakeOffShare(a: array<array<real>>, ghost U: Matrix, i: int, xi: real, ghost x: seq<real>, ghost B: seq<real>)
    returns (ghost B': seq<real>)
    requires HoldsWithRhs(a, U, B) && 0 <= i < a.Length && |x| == a.Length && x[i] == xi
    requires Pending(U, x, B, i, i - 1)
    modifies set r | 0 <= r < i :: a[r]
    ensures HoldsWithRhs(a, U, B')
    ensures Pending(U, x, B', i, -1)
    ensures forall k :: i <= k < a.Length ==> B'[k] == B[k]
  {
    var n := a.Length;
    B' := B;
    var k := i - 1;
    while k >= 0
      invariant -1 <= k < i
      invariant HoldsWithRhs(a, U, B')
      invariant Pending(U, x, B', i, k)
      invariant forall r :: i <= r < n ==> B'[r] == B[r]
    {
      B' := TakeShareFromRow(a, U, i, xi, x, B', k);
      k := k - 1;
    }
  }

  /** Before x[i] is computed, every right-hand side B[k] with k <= i
      lacks exactly the terms of the unknowns after i. */
  ghost predicate Reduced(U: Matrix, x: seq<real>, B: seq<real>, i: int)
  {
    && IsAugmented(U) && |B| == |U| && |x| == |U| && -1 <= i < |U|
    && forall k :: 0 <= k <= i ==> B[k] == U[k][|U|] - Sum(U[k], x, i + 1, |U|)
  }

  /** The equations after row i hold for x. */
  ghost predicate SolvedAfter(U: Matrix, x: seq<real>, i: int)
  {
    && IsAugmented(U) && |x| == |U| && -1 <= i < |U|
    && forall j :: i < j < |U| ==> Sum(U[j], x, j, |U|) == U[j][|U|]
  }

  /** Back substitution has reached row i: the rows up to i are reduced
      and the rows after it are solved. */
  ghost predicate Unsolved(U: Matrix, x: seq<real>, B: seq<real>, i: int)
  {
    Reduced(U, x, B, i) && SolvedAfter(U, x, i)
  }

  /** Setting x[i] := B[i] / U[i][i] solves equation i and leaves the
      others' bookkeeping in place. */
  lemma SolveUnknown(U: Matrix, x: seq<real>, B: seq<real>, i: int, v: real)
    requires Reduced(U, x, B, i) && SolvedAfter(U, x, i) && 0 <= i
    requires U[i][i] != 0.0 && v == B[i] / U[i][i]
    ensures Pending(U, x[i := v], B, i, i - 1)
    ensures SolvedAfter(U, x[i := v], i - 1)
  {
    var n := |U|;
    var y := x[i := v];
    forall k | 0 <= k < n
      ensures Sum(U[k], y, i + 1, n) == Sum(U[k], x, i + 1, n)
      ensures k > i ==> Sum(U[k], y, k, n) == Sum(U[k], x, k, n)
    {
      SumAgree(U[k], y, U[k], x, i + 1, n);
      if k > i {
        SumAgree(U[k], y, U[k], x, k, n);
      }
    }
    SolvedRow(U[i], y, i);
  }

  /** Before any unknown is computed, nothing is missing from the
      right-hand sides. */
  lemma NothingReduced(U: Matrix, x: seq<real>, B: seq<real>)
    requires IsAugmented(U) && |x| == |U| && |B| == |U|
    requires forall r :: 0 <= r < |U| ==> B[r] == U[r][|U|]
    ensures Reduced(U, x, B, |U| - 1) && SolvedAfter(U, x, |U| - 1)
  {
  }

  /** Once every equation of an upper triangular system holds from its
      diagonal on, the whole system holds. */
  lemma TriangularSolved(U: Matrix, x: seq<real>)
    requires IsAugmented(U) && UpperTriangular(U) && SolvedAfter(U, x, -1)
    ensures Satisfies(U, x)
  {
    var n := |U|;
    forall j | 0 <= j < n ensures Sum(U[j], x, 0, n) == U[j][n] {
      SumZeroPrefix(U[j], x, j, n);
    }
  }

  /** Pass i of back substitution: x[i] := a[i][n] / a[i][i], then x[i]'s
      share is taken off the right-hand sides of the rows above. */
  method BackSubstitutionPass(a: array<array<real>>, ghost U: Matrix, x: seq<real>, i: int, ghost B: seq<real>)
    returns (x': seq<real>, ghost B': seq<real>)
    requires HoldsWithRhs(a, U, B) && 0 <= i < a.Length && U[i][i] != 0.0
    requires Unsolved(U, x, B, i)
    modifies set r | 0 <= r < i :: a[r]
    ensures HoldsWithRhs(a, U, B')
    ensures Unsolved(U, x', B', i - 1)
  {
    var n := a.Length;
    var rhs, pivot := a[i][n], a[i][i];
    assert rhs == a[i][..][n] == B[i];
    assert pivot == a[i][..][i] == U[i][i];
    SolveUnknown(U, x, B, i, rhs / pivot);
    x' := x[i := rhs / pivot];
    B' := TakeOffShare(a, U, i, x'[i], x', B);
  }

  /** Back substitution on the upper triangular system U held in a, from
      the last row up. */
  method BackSubstitute(a: array<array<real>>, ghost U: Matrix) returns (x: seq<real>)
    requires Holds(a, U) && UpperTriangular(U)
    modifies set r | 0 <= r < a.Length :: a[r]
    ensures Satisfies(U, x)
  {
    var n := a.Length;
    x := seq(n, _ => 0.0);
    ghost var B := seq(n, r requires 0 <= r < n => U[r][n]);
    HeldRhs(a, U, B);
    NothingReduced(U, x, B);
    var i := n - 1;
    assert Unsolved(U, x, B, i);
    while i >= 0
      invariant -1 <= i < n
      invariant HoldsWithRhs(a, U, B)
      invariant Unsolved(U, x, B, i)
    {
      x, B := BackSubstitutionPass(a, U, x, i, B);
      i := i - 1;
    }
    assert SolvedAfter(U, x, -1);
    TriangularSolved(U, x);
  }

  /** Pass i of the forward elimination: pivot search, row exchange and
      elimination below the pivot. The rows of a are only exchanged and
      rewritten, never replaced. */
  method EliminationPass(a: array<array<real>>, i: int, ghost S: Matrix, ghost rows: set<array<real>>)
    requires Holds(a, S) && 0 <= i < a.Length && S[PivotRow(S, i)][i] != 0.0
    requires forall r :: 0 <= r < a.Length ==> a[r] in rows
    modifies a, rows
    ensures Holds(a, Step(S, i))
    ensures forall r :: 0 <= r < a.Length ==> a[r] in rows
  {
    var maxRow := FindPivot(a, i, S);
    ExchangeRows(a, i, maxRow, S);
    EliminateColumn(a, i, SwapRows(S, i, maxRow));
  }

  /** The forward passes i = 0..n-1, which leave Forward of the initial
      system in a. */
  method ForwardEliminate(a: array<array<real>>, ghost M: Matrix, ghost rows: set<array<real>>)
    requires Holds(a, M) && PivotsOk(M, 0)
    requires forall r :: 0 <= r < a.Length ==> a[r] in rows
    modifies a, rows
    ensures Holds(a, Forward(M, 0))
    ensures forall r :: 0 <= r < a.Length ==> a[r] in rows
  {
    var n := a.Length;
    ghost var S := M;
    for i := 0 to n
      invariant Holds(a, S) && |S| == n
      invariant PivotsOk(S, i) && Forward(S, i) == Forward(M, 0)
      invariant forall r :: 0 <= r < n ==> a[r] in rows
    {
      EliminationPass(a, i, S, rows);
      S := Step(S, i);
    }
  }

  /** The first half of solveSystem: a fresh augmented copy of L·x = V
      brought to upper triangular form by the forward passes. */
  method Triangulate(L: array2<real>, V: seq<real>) returns (a: array<array<real>>, ghost U: Matrix)
    requires L.Length1 == L.Length0 && |V| >= L.Length0
    requires PivotsOk(Augment(Grid(L), V), 0)
    ensures fresh(a) && forall r :: 0 <= r < a.Length ==> fresh(a[r])
    ensures Holds(a, U) && U == Forward(Augment(Grid(L), V), 0)
  {
    var n := L.Length0;
    a := AugmentedCopy(L, V);
    ghost var M := Augment(Grid(L), V);
    ghost var rows := set r | 0 <= r < n :: a[r];
    ForwardEliminate(a, M, rows);
    U := Forward(M, 0);
  }

  /** solveSystem(L, V): with every pivot nonzero, the returned x solves
      L·x = V. L and V are left as they were: the method modifies no
      existing object. */
  method SolveSystem(L: array2<real>, V: seq<real>) returns (x: seq<real>)
    requires L.Length1 == L.Length0 && |V| >= L.Length0
    requires PivotsOk(Augment(Grid(L), V), 0)
    ensures |x| == L.Length0
    ensures forall r :: 0 <= r < L.Length0 ==> Dot(Grid(L)[r], x) == V[r]
  {
    var a;
    ghost var U;
    a, U := Triangulate(L, V);
    ForwardReduces(Augment(Grid(L), V), 0);
    x := BackSubstitute(a, U);
    AugmentedSolution(Grid(L), V, x);
  }
}
