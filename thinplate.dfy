/** The mathematics of the thin plate spline as values: the radial kernel,
    the saddle-point system matrix L = [[K, P], [Pᵀ, 0]] the builders fill,
    the right-hand sides, and the transform a coefficient vector defines.
    Math.log is not modelled: every definition takes the logarithm as a
    parameter `ln`, about which nothing is assumed. */
module ThinPlate {
  import opened Sums

  /** A control point or query point; the source stores it as [x, y]. */
  datatype Point = Point(x: real, y: real)

  /** One output axis of the warp. */
  datatype Axis = X | Y

  function Coord(p: Point, a: Axis): real
  {
    match a
    case X => p.x
    case Y => p.y
  }

  /** The offset 1e-10 added to r² before taking the logarithm. */
  const Eps: real := 0.0000000001

  /** Squared Euclidean distance, (px - qx)² + (py - qy)²: never negative,
      and zero from a point to itself. */
  function SquaredDistance(p: Point, q: Point): (d: real)
    ensures d >= 0.0
    ensures p == q ==> d == 0.0
  {
    SumOfSquares(p.x - q.x, p.y - q.y);
    (p.x - q.x) * (p.x - q.x) + (p.y - q.y) * (p.y - q.y)
  }

  /** The thin plate kernel r²·log(r² + ε). */
  function Radial(ln: real -> real, r2: real): (u: real)
    ensures r2 == 0.0 ==> u == 0.0
  {
    r2 * ln(r2 + Eps)
  }

  /** A sum of two squares is never negative. */
  lemma SumOfSquares(a: real, b: real)
    ensures a * a + b * b >= 0.0
  {
    if a < 0.0 {
      assert a * a == (-a) * (-a);
    }
    if b < 0.0 {
      assert b * b == (-b) * (-b);
    }
  }

  lemma SquaredDistanceSymmetric(p: Point, q: Point)
    ensures SquaredDistance(p, q) == SquaredDistance(q, p)
  {
  }

  /** Entry (i, j) of the kernel matrix K: the kernel of the distance
      between source points i and j, and exactly 0 on the diagonal. */
  function KernelEntry(ln: real -> real, src: seq<Point>, i: int, j: int): (k: real)
    requires 0 <= i < |src| && 0 <= j < |src|
    ensures k == Radial(ln, SquaredDistance(src[i], src[j]))
  {
    if i != j then Radial(ln, SquaredDistance(src[i], src[j])) else 0.0
  }

  /** Entry (i, c) of the affine basis P, whose row i is [1, xᵢ, yᵢ]. */
  function AffineEntry(src: seq<Point>, i: int, c: int): real
    requires 0 <= i < |src| && 0 <= c < 3
  {
    if c == 0 then 1.0 else if c == 1 then src[i].x else src[i].y
  }

  /** Entry (i, j) of L = [[K, P], [Pᵀ, 0]] for n = |src|. Its diagonal
      is zero: K's diagonal is, and so is the bottom-right block. */
  function SystemEntry(ln: real -> real, src: seq<Point>, i: int, j: int): (e: real)
    requires 0 <= i < |src| + 3 && 0 <= j < |src| + 3
    ensures i == j ==> e == 0.0
    ensures i < |src| <= j ==> e == AffineEntry(src, i, j - |src|)
    ensures j < |src| <= i ==> e == AffineEntry(src, j, i - |src|)
  {
    var n := |src|;
    if i < n && j < n then KernelEntry(ln, src, i, j)
    else if i < n then AffineEntry(src, i, j - n)
    else if j < n then AffineEntry(src, j, i - n)
    else 0.0
  }

  /** The (n+3)×(n+3) matrix L, as the value the builders produce. */
  function SystemMatrix(ln: real -> real, src: seq<Point>): (A: seq<seq<real>>)
    ensures |A| == |src| + 3
    ensures forall i :: 0 <= i < |A| ==> |A[i]| == |src| + 3
    ensures forall i, j :: 0 <= i < |A| && 0 <= j < |A| ==> A[i][j] == SystemEntry(ln, src, i, j)
  {
    seq(|src| + 3, i requires 0 <= i < |src| + 3 =>
      seq(|src| + 3, j requires 0 <= j < |src| + 3 => SystemEntry(ln, src, i, j)))
  }

  lemma SystemMatrixSymmetric(ln: real -> real, src: seq<Point>, i: int, j: int)
    requires 0 <= i < |src| + 3 && 0 <= j < |src| + 3
    ensures SystemMatrix(ln, src)[i][j] == SystemMatrix(ln, src)[j][i]
  {
    if i < |src| && j < |src| {
      SquaredDistanceSymmetric(src[i], src[j]);
    }
  }

  /** The right-hand side for one axis: the target coordinates on that axis
      followed by the three zeros of the affine side conditions. */
  function Rhs(tgt: seq<Point>, a: Axis): (v: seq<real>)
    ensures |v| == |tgt| + 3
    ensures forall i :: 0 <= i < |tgt| ==> v[i] == Coord(tgt[i], a)
    ensures v[|tgt|] == 0.0 && v[|tgt| + 1] == 0.0 && v[|tgt| + 2] == 0.0
  {
    seq(|tgt|, i requires 0 <= i < |tgt| => Coord(tgt[i], a)) + [0.0, 0.0, 0.0]
  }

  /** The kernel term c[i]·U(r²(q, srcᵢ)) of source point i. It vanishes
      when the weight is zero and at the control point itself. */
  function KernelTerm(ln: real -> real, c: seq<real>, src: seq<Point>, q: Point, i: int): (t: real)
    requires 0 <= i < |src| && i < |c|
    ensures c[i] == 0.0 ==> t == 0.0
    ensures q == src[i] ==> t == 0.0
  {
    c[i] * Radial(ln, SquaredDistance(q, src[i]))
  }

  /** The first k kernel weights are all zero. */
  predicate ZeroWeights(c: seq<real>, k: int)
    requires 0 <= k <= |c|
  {
    forall m :: 0 <= m < k ==> c[m] == 0.0
  }

  /** Σ_{i<k} c[i]·U(r²(q, srcᵢ)), the kernel part of a transformed
      coordinate, accumulated in index order. With zero weights it is zero. */
  function KernelSum(ln: real -> real, c: seq<real>, src: seq<Point>, q: Point, k: int): (s: real)
    requires 0 <= k <= |src| && k <= |c|
    ensures ZeroWeights(c, k) ==> s == 0.0
  {
    if k == 0 then 0.0 else KernelSum(ln, c, src, q, k - 1) + KernelTerm(ln, c, src, q, k - 1)
  }

  /** One step of the accumulation loop: adding the kernel term of point i
      to a coordinate that holds the affine part and the first i kernel
      terms gives the first i + 1. */
  lemma Accumulated(ln: real -> real, c: seq<real>, src: seq<Point>, q: Point, i: int, acc: real)
    requires 0 <= i < |src| && |src| + 3 <= |c|
    requires acc == AffinePart(c, |src|, q) + KernelSum(ln, c, src, q, i)
    ensures acc + KernelTerm(ln, c, src, q, i) == AffinePart(c, |src|, q) + KernelSum(ln, c, src, q, i + 1)
  {
    assert KernelSum(ln, c, src, q, i + 1) == KernelSum(ln, c, src, q, i) + KernelTerm(ln, c, src, q, i);
  }

  /** A kernel value u computed for point i, weighted by c[i], is the
      kernel term of point i. */
  lemma WeightedKernel(ln: real -> real, c: seq<real>, src: seq<Point>, q: Point, i: int, u: real)
    requires 0 <= i < |src| && i < |c|
    requires u == Radial(ln, SquaredDistance(q, src[i]))
    ensures c[i] * u == KernelTerm(ln, c, src, q, i)
  {
  }

  /** The affine part c[n] + c[n+1]·qx + c[n+2]·qy of a warped coordinate:
      the affine basis row [1, qx, qy] of q times the three affine
      coefficients. */
  function AffinePart(c: seq<real>, n: int, q: Point): (a: real)
    requires 0 <= n && n + 3 <= |c|
    ensures a == Dot([1.0, q.x, q.y], c[n..n + 3])
  {
    var row, w := [1.0, q.x, q.y], c[n..n + 3];
    assert Sum(row, w, 0, 1) == c[n];
    assert Sum(row, w, 0, 2) == c[n] + q.x * c[n + 1];
    c[n] + c[n + 1] * q.x + c[n + 2] * q.y
  }

  /** The warped coordinate of q on the axis whose coefficients are c:
      the affine part plus the kernel part. With every kernel weight zero
      the transform is purely affine. */
  function Transform(ln: real -> real, c: seq<real>, src: seq<Point>, q: Point): (t: real)
    requires |c| >= |src| + 3
    ensures ZeroWeights(c, |src|) ==> t == AffinePart(c, |src|, q)
  {
    AffinePart(c, |src|, q) + KernelSum(ln, c, src, q, |src|)
  }

  /** c solves A·c = v. */
  predicate Solves(A: seq<seq<real>>, c: seq<real>, v: seq<real>)
  {
    && |c| == |A| && |v| == |A|
    && (forall r :: 0 <= r < |A| ==> |A[r]| >= |c|)
    && forall r :: 0 <= r < |A| ==> Dot(A[r], c) == v[r]
  }

  /** The first k terms of a row of kernel entries for source point j,
      times c, are the first k kernel terms of the transform at point j. */
  lemma {:induction false} KernelRowSum(ln: real -> real, c: seq<real>, src: seq<Point>, row: seq<real>, j: int, k: int)
    requires |c| == |src| + 3 && |row| == |src| + 3 && 0 <= j < |src| && 0 <= k <= |src|
    requires forall m :: 0 <= m < |src| ==> row[m] == KernelEntry(ln, src, j, m)
    ensures Sum(row, c, 0, k) == KernelSum(ln, c, src, src[j], k)
  {
    if k > 0 {
      KernelRowSum(ln, c, src, row, j, k - 1);
      var u := Radial(ln, SquaredDistance(src[j], src[k - 1]));
      assert row[k - 1] == u;
      assert row[k - 1] * c[k - 1] == KernelTerm(ln, c, src, src[j], k - 1);
    }
  }

  /** Evaluating the transform at source point j computes row j of L·c. */
  lemma TransformAtSource(ln: real -> real, c: seq<real>, src: seq<Point>, j: int)
    requires |c| == |src| + 3 && 0 <= j < |src|
    ensures Transform(ln, c, src, src[j]) == Dot(SystemMatrix(ln, src)[j], c)
  {
    var n := |src|;
    var row := SystemMatrix(ln, src)[j];
    forall m | 0 <= m < n
      ensures row[m] == KernelEntry(ln, src, j, m)
    {
      assert row[m] == SystemEntry(ln, src, j, m);
    }
    KernelRowSum(ln, c, src, row, j, n);
    assert row[n] == 1.0 && row[n + 1] == src[j].x && row[n + 2] == src[j].y;
    assert Dot(row, c) == Sum(row, c, 0, n + 2) + row[n + 2] * c[n + 2];
    assert Sum(row, c, 0, n + 2) == Sum(row, c, 0, n + 1) + row[n + 1] * c[n + 1];
    assert Sum(row, c, 0, n + 1) == Sum(row, c, 0, n) + row[n] * c[n];
  }

  /** Exact interpolation: coefficients that solve L·c = Rhs(tgt, a) map
      every source point onto its target on axis a. */
  lemma ExactInterpolation(ln: real -> real, c: seq<real>, src: seq<Point>, tgt: seq<Point>, a: Axis)
    requires |tgt| == |src|
    requires Solves(SystemMatrix(ln, src), c, Rhs(tgt, a))
    ensures forall j :: 0 <= j < |src| ==> Transform(ln, c, src, src[j]) == Coord(tgt[j], a)
  {
    forall j | 0 <= j < |src|
      ensures Transform(ln, c, src, src[j]) == Coord(tgt[j], a)
    {
      TransformAtSource(ln, c, src, j);
    }
  }

  /** Σ_{i<k} c[i]·P[i][col], the kernel weights against one affine basis column. */
  function AffineMoment(c: seq<real>, src: seq<Point>, col: int, k: int): real
    requires 0 <= col < 3 && 0 <= k <= |src| && k <= |c|
  {
    if k == 0 then 0.0 else AffineMoment(c, src, col, k - 1) + c[k - 1] * AffineEntry(src, k - 1, col)
  }

  lemma {:induction false} ConstraintRowSum(ln: real -> real, c: seq<real>, src: seq<Point>, col: int, k: int)
    requires |c| == |src| + 3 && 0 <= col < 3 && 0 <= k <= |src|
    ensures Sum(SystemMatrix(ln, src)[|src| + col], c, 0, k) == AffineMoment(c, src, col, k)
  {
    if k > 0 {
      ConstraintRowSum(ln, c, src, col, k - 1);
    }
  }

  /** The last three rows of L·c = Rhs(tgt, a) are the side conditions of
      the spline: the kernel weights sum to zero and have zero moments
      against the x and y coordinates of the source points. */
  lemma AffineSideConditions(ln: real -> real, c: seq<real>, src: seq<Point>, tgt: seq<Point>, a: Axis)
    requires |tgt| == |src|
    requires Solves(SystemMatrix(ln, src), c, Rhs(tgt, a))
    ensures AffineMoment(c, src, 0, |src|) == 0.0
    ensures AffineMoment(c, src, 1, |src|) == 0.0
    ensures AffineMoment(c, src, 2, |src|) == 0.0
  {
    var n := |src|;
    var A := SystemMatrix(ln, src);
    forall col | 0 <= col < 3
      ensures AffineMoment(c, src, col, n) == 0.0
    {
      var row := A[n + col];
      ConstraintRowSum(ln, c, src, col, n);
      assert row[n] == 0.0 && row[n + 1] == 0.0 && row[n + 2] == 0.0;
      assert Dot(row, c) == Sum(row, c, 0, n + 2) + row[n + 2] * c[n + 2];
      assert Sum(row, c, 0, n + 2) == Sum(row, c, 0, n + 1) + row[n + 1] * c[n + 1];
      assert Sum(row, c, 0, n + 1) == Sum(row, c, 0, n) + row[n] * c[n];
      assert Dot(row, c) == Rhs(tgt, a)[n + col];
    }
  }

  /** A vector whose products with the rows of L are the right-hand side
      for axis a solves the system, and so interpolates the targets. */
  lemma Fitted(ln: real -> real, c: seq<real>, src: seq<Point>, tgt: seq<Point>, a: Axis)
    requires |tgt| == |src| && |c| == |src| + 3
    requires forall r :: 0 <= r < |src| + 3 ==> Dot(SystemMatrix(ln, src)[r], c) == Rhs(tgt, a)[r]
    ensures Solves(SystemMatrix(ln, src), c, Rhs(tgt, a))
    ensures forall j :: 0 <= j < |src| ==> Transform(ln, c, src, src[j]) == Coord(tgt[j], a)
  {
    ExactInterpolation(ln, c, src, tgt, a);
  }

  /** Three control points that do not lie on one line. */
  predicate NonCollinear(p0: Point, p1: Point, p2: Point)
  {
    (p1.x - p0.x) * (p2.y - p0.y) - (p2.x - p0.x) * (p1.y - p0.y) != 0.0
  }

  /** The minimal case: with three non-collinear control points the side
      conditions leave no room for kernel weights, so every weight is zero
      and the fitted transform is purely affine. */
  lemma MinimalCase(ln: real -> real, c: seq<real>, src: seq<Point>, tgt: seq<Point>, a: Axis)
    requires |src| == 3 && |tgt| == 3 && NonCollinear(src[0], src[1], src[2])
    requires Solves(SystemMatrix(ln, src), c, Rhs(tgt, a))
    ensures c[0] == 0.0 && c[1] == 0.0 && c[2] == 0.0
    ensures ZeroWeights(c, 3)
    ensures forall q :: Transform(ln, c, src, q) == AffinePart(c, 3, q)
  {
    AffineSideConditions(ln, c, src, tgt, a);
    var p0, p1, p2 := src[0], src[1], src[2];
    assert c[0] + c[1] + c[2] == 0.0 by {
      assert AffineMoment(c, src, 0, 3) == AffineMoment(c, src, 0, 2) + c[2];
      assert AffineMoment(c, src, 0, 2) == AffineMoment(c, src, 0, 1) + c[1];
    }
    assert c[0] * p0.x + c[1] * p1.x + c[2] * p2.x == 0.0 by {
      assert AffineMoment(c, src, 1, 3) == AffineMoment(c, src, 1, 2) + c[2] * p2.x;
      assert AffineMoment(c, src, 1, 2) == AffineMoment(c, src, 1, 1) + c[1] * p1.x;
    }
    assert c[0] * p0.y + c[1] * p1.y + c[2] * p2.y == 0.0 by {
      assert AffineMoment(c, src, 2, 3) == AffineMoment(c, src, 2, 2) + c[2] * p2.y;
      assert AffineMoment(c, src, 2, 2) == AffineMoment(c, src, 2, 1) + c[1] * p1.y;
    }
    var dx1, dy1, dx2, dy2 := p1.x - p0.x, p1.y - p0.y, p2.x - p0.x, p2.y - p0.y;
    var d := dx1 * dy2 - dx2 * dy1;
    assert c[1] * dx1 + c[2] * dx2 == 0.0 by {
      assert c[1] * dx1 + c[2] * dx2 == (c[0] * p0.x + c[1] * p1.x + c[2] * p2.x) - (c[0] + c[1] + c[2]) * p0.x;
    }
    assert c[1] * dy1 + c[2] * dy2 == 0.0 by {
      assert c[1] * dy1 + c[2] * dy2 == (c[0] * p0.y + c[1] * p1.y + c[2] * p2.y) - (c[0] + c[1] + c[2]) * p0.y;
    }
    assert c[1] * d == dy2 * (c[1] * dx1 + c[2] * dx2) - dx2 * (c[1] * dy1 + c[2] * dy2);
    assert c[2] * d == dx1 * (c[1] * dy1 + c[2] * dy2) - dy1 * (c[1] * dx1 + c[2] * dx2);
  }

  /** The affine map p ↦ a0 + a1·px + a2·py. */
  function AffineValue(a0: real, a1: real, a2: real, p: Point): real
  {
    a0 + a1 * p.x + a2 * p.y
  }

  /** The coefficient vector of a purely affine warp: n zero kernel
      weights followed by a0, a1, a2. */
  function AffineOnly(n: nat, a0: real, a1: real, a2: real): (c: seq<real>)
    ensures |c| == n + 3 && ZeroWeights(c, n)
    ensures c[n] == a0 && c[n + 1] == a1 && c[n + 2] == a2
  {
    seq(n, _ => 0.0) + [a0, a1, a2]
  }

  /** A row times an affine-only vector picks out its last three columns. */
  lemma RowTimesAffine(row: seq<real>, n: nat, a0: real, a1: real, a2: real)
    requires |row| == n + 3
    ensures Dot(row, AffineOnly(n, a0, a1, a2)) == row[n] * a0 + row[n + 1] * a1 + row[n + 2] * a2
  {
    var c := AffineOnly(n, a0, a1, a2);
    SumZeroVector(row, c, n);
    assert Dot(row, c) == Sum(row, c, 0, n + 2) + row[n + 2] * c[n + 2];
    assert Sum(row, c, 0, n + 2) == Sum(row, c, 0, n + 1) + row[n + 1] * c[n + 1];
    assert Sum(row, c, 0, n + 1) == Sum(row, c, 0, n) + row[n] * c[n];
  }

  /** When every target is the image of its source under one affine map,
      that map's affine-only coefficients solve L·c = V. */
  lemma AffineSolves(ln: real -> real, src: seq<Point>, tgt: seq<Point>, a: Axis, a0: real, a1: real, a2: real)
    requires |tgt| == |src|
    requires forall j :: 0 <= j < |src| ==> Coord(tgt[j], a) == AffineValue(a0, a1, a2, src[j])
    ensures Solves(SystemMatrix(ln, src), AffineOnly(|src|, a0, a1, a2), Rhs(tgt, a))
  {
    var n := |src|;
    var A, c, v := SystemMatrix(ln, src), AffineOnly(|src|, a0, a1, a2), Rhs(tgt, a);
    forall r | 0 <= r < n + 3 ensures Dot(A[r], c) == v[r] {
      RowTimesAffine(A[r], n, a0, a1, a2);
      if r < n {
        assert A[r][n] == 1.0 && A[r][n + 1] == src[r].x && A[r][n + 2] == src[r].y;
        assert v[r] == AffineValue(a0, a1, a2, src[r]);
      } else {
        assert A[r][n] == 0.0 && A[r][n + 1] == 0.0 && A[r][n + 2] == 0.0;
      }
    }
  }

  /** The warp with affine-only coefficients is that affine map everywhere. */
  lemma AffineTransform(ln: real -> real, src: seq<Point>, q: Point, a0: real, a1: real, a2: real)
    ensures Transform(ln, AffineOnly(|src|, a0, a1, a2), src, q) == AffineValue(a0, a1, a2, q)
  {
  }

  /** The corners of the 10 × 10 square, in order. */
  function Square(): (s: seq<Point>)
    ensures |s| == 4
  {
    [Point(0.0, 0.0), Point(10.0, 0.0), Point(0.0, 10.0), Point(10.0, 10.0)]
  }

  /** The square corners scaled by 10. */
  function Scaled(): (s: seq<Point>)
    ensures |s| == 4
    ensures forall j :: 0 <= j < 4 ==> s[j] == Point(10.0 * Square()[j].x, 10.0 * Square()[j].y)
  {
    [Point(0.0, 0.0), Point(100.0, 0.0), Point(0.0, 100.0), Point(100.0, 100.0)]
  }

  /** Each scaled corner is its corner under the maps 10·x and 10·y. */
  lemma ScaledIsAffine()
    ensures forall j :: 0 <= j < |Square()| ==> Coord(Scaled()[j], X) == AffineValue(0.0, 10.0, 0.0, Square()[j])
    ensures forall j :: 0 <= j < |Square()| ==> Coord(Scaled()[j], Y) == AffineValue(0.0, 0.0, 10.0, Square()[j])
  {
  }
}
