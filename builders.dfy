/** createKMatrix, createPMatrix and createLMatrix: each allocates a
    zero-filled 2-D array and fills it with nested loops. None of them
    modifies an existing object (they have no modifies clause). */
module Builders {
  import opened ThinPlate

  /** The n×n kernel matrix of the source points: entry (i, j) is
      r²·log(r² + ε) for the squared distance r² between points i and j,
      the diagonal is left at 0. */
  method CreateKMatrix(ln: real -> real, points: seq<Point>) returns (K: array2<real>)
    ensures K.Length0 == |points| && K.Length1 == |points|
    ensures forall i, j :: 0 <= i < |points| && 0 <= j < |points| ==>
      K[i, j] == Radial(ln, SquaredDistance(points[i], points[j]))
    ensures forall i :: 0 <= i < |points| ==> K[i, i] == 0.0
    ensures forall i, j :: 0 <= i < |points| && 0 <= j < |points| ==> K[i, j] == K[j, i]
  {
    var n := |points|;
    K := new real[n, n]((_, _) => 0.0);
    for i := 0 to n
      invariant forall r, c :: 0 <= r < i && 0 <= c < n ==> K[r, c] == KernelEntry(ln, points, r, c)
      invariant forall r, c :: i <= r < n && 0 <= c < n ==> K[r, c] == 0.0
    {
      for j := 0 to n
        invariant forall r, c :: 0 <= r < i && 0 <= c < n ==> K[r, c] == KernelEntry(ln, points, r, c)
        invariant forall c :: 0 <= c < j ==> K[i, c] == KernelEntry(ln, points, i, c)
        invariant forall r, c :: i <= r < n && 0 <= c < n && (r > i || c >= j) ==> K[r, c] == 0.0
      {
        if i != j {
          var r2 := SquaredDistance(points[i], points[j]);
          K[i, j] := Radial(ln, r2);
        }
      }
    }
    forall i, j | 0 <= i < n && 0 <= j < n ensures K[i, j] == K[j, i] {
      SquaredDistanceSymmetric(points[i], points[j]);
    }
  }

  /** The n×3 affine basis: row i is [1, xᵢ, yᵢ]. */
  method CreatePMatrix(points: seq<Point>) returns (P: array2<real>)
    ensures P.Length0 == |points| && P.Length1 == 3
    ensures forall i :: 0 <= i < |points| ==>
      P[i, 0] == 1.0 && P[i, 1] == points[i].x && P[i, 2] == points[i].y
  {
    var n := |points|;
    P := new real[n, 3]((_, c) => if c == 0 then 1.0 else 0.0);
    for i := 0 to n
      invariant forall r :: 0 <= r < i ==>
        P[r, 0] == 1.0 && P[r, 1] == points[r].x && P[r, 2] == points[r].y
      invariant forall r :: i <= r < n ==> P[r, 0] == 1.0
    {
      P[i, 1] := points[i].x;
      P[i, 2] := points[i].y;
    }
  }

  /** The (n+3)×(n+3) block matrix [[K, P], [Pᵀ, 0]], n = K's row count;
      it is symmetric whenever K is. */
  method CreateLMatrix(K: array2<real>, P: array2<real>) returns (L: array2<real>)
    requires K.Length1 >= K.Length0 && P.Length0 >= K.Length0 && P.Length1 >= 3
    ensures L.Length0 == K.Length0 + 3 && L.Length1 == K.Length0 + 3
    ensures forall i, j :: 0 <= i < K.Length0 && 0 <= j < K.Length0 ==> L[i, j] == K[i, j]
    ensures forall i, j :: 0 <= i < K.Length0 && 0 <= j < 3 ==> L[i, K.Length0 + j] == P[i, j]
    ensures forall i, j :: 0 <= i < 3 && 0 <= j < K.Length0 ==> L[K.Length0 + i, j] == P[j, i]
    ensures forall i, j :: K.Length0 <= i < L.Length0 && K.Length0 <= j < L.Length0 ==> L[i, j] == 0.0
    ensures (forall i, j :: 0 <= i < K.Length0 && 0 <= j < K.Length0 ==> K[i, j] == K[j, i]) ==>
      forall i, j :: 0 <= i < L.Length0 && 0 <= j < L.Length0 ==> L[i, j] == L[j, i]
  {
    var n := K.Length0;
    L := new real[n + 3, n + 3]((_, _) => 0.0);
    // top left is K
    for i := 0 to n
      invariant forall r, c :: 0 <= r < n + 3 && 0 <= c < n + 3 ==>
        L[r, c] == if r < i && c < n then K[r, c] else 0.0
    {
      for j := 0 to n
        invariant forall r, c :: 0 <= r < n + 3 && 0 <= c < n + 3 ==>
          L[r, c] == if (r < i && c < n) || (r == i && c < j) then K[r, c] else 0.0
      {
        L[i, j] := K[i, j];
      }
    }
    // top right is P
    for i := 0 to n
      invariant forall r, c :: 0 <= r < n + 3 && 0 <= c < n + 3 ==>
        L[r, c] == if r < n && c < n then K[r, c] else if r < i && c >= n then P[r, c - n] else 0.0
    {
      for j := 0 to 3
        invariant forall r, c :: 0 <= r < n + 3 && 0 <= c < n + 3 ==>
          L[r, c] == if r < n && c < n then K[r, c]
                     else if (r < i && c >= n) || (r == i && n <= c < n + j) then P[r, c - n]
                     else 0.0
      {
        L[i, n + j] := P[i, j];
      }
    }
    // bottom left is P transposed
    for i := 0 to 3
      invariant forall r, c :: 0 <= r < n + 3 && 0 <= c < n + 3 ==>
        L[r, c] == if r < n && c < n then K[r, c]
                   else if r < n then P[r, c - n]
                   else if r < n + i && c < n then P[c, r - n]
                   else 0.0
    {
      for j := 0 to n
        invariant forall r, c :: 0 <= r < n + 3 && 0 <= c < n + 3 ==>
          L[r, c] == if r < n && c < n then K[r, c]
                     else if r < n then P[r, c - n]
                     else if (r < n + i && c < n) || (r == n + i && c < j) then P[c, r - n]
                     else 0.0
      {
        L[n + i, j] := P[j, i];
      }
    }
  }
}
