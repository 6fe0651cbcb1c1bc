/** computeTPSCoefficients and applyTPSTransformation: the two entry points
    of the warp engine. The first fits one coefficient vector per axis by
    solving L·c = V; the second evaluates the fitted spline at a point. */
module Warp {
  import opened Elimination
  import opened ThinPlate
  import opened Builders
  import opened Solver

  /** The L that createLMatrix(createKMatrix(src), createPMatrix(src))
      returns holds the system matrix of src. */
  method AssembleSystem(ln: real -> real, src: seq<Point>) returns (L: array2<real>)
    ensures Grid(L) == SystemMatrix(ln, src)
  {
    var K := CreateKMatrix(ln, src);
    var P := CreatePMatrix(src);
    L := CreateLMatrix(K, P);
    var n := |src|;
    var A := SystemMatrix(ln, src);
    forall i | 0 <= i < n + 3 ensures Grid(L)[i] == A[i] {
      forall j | 0 <= j < n + 3 ensures Grid(L)[i][j] == A[i][j] {
        assert A[i][j] == SystemEntry(ln, src, i, j);
        if i < n && j < n {
          assert L[i, j] == K[i, j];
          assert K[i, j] == KernelEntry(ln, src, i, j);
        } else if i < n {
          assert L[i, n + (j - n)] == P[i, j - n];
          assert P[i, j - n] == AffineEntry(src, i, j - n);
        } else if j < n {
          assert L[n + (i - n), j] == P[j, i - n];
          assert P[j, i - n] == AffineEntry(src, j, i - n);
        } else {
          assert L[i, j] == 0.0;
        }
      }
    }
  }

  /** The coefficient pair [cx, cy]: for each axis, the solution of
      L·c = V where V holds the target coordinates on that axis followed
      by three zeros. With every pivot of L nonzero, the fitted spline maps
      each source point exactly onto its target and its kernel weights
      satisfy the three affine side conditions. */
  method ComputeTPSCoefficients(ln: real -> real, src: seq<Point>, tgt: seq<Point>)
    returns (coeffs: (seq<real>, seq<real>))
    requires |tgt| == |src|
    requires PivotsNonzero(SystemMatrix(ln, src))
    ensures Solves(SystemMatrix(ln, src), coeffs.0, Rhs(tgt, X))
    ensures Solves(SystemMatrix(ln, src), coeffs.1, Rhs(tgt, Y))
    ensures forall j :: 0 <= j < |src| ==>
      Transform(ln, coeffs.0, src, src[j]) == tgt[j].x && Transform(ln, coeffs.1, src, src[j]) == tgt[j].y
    ensures forall c :: Solves(SystemMatrix(ln, src), c, Rhs(tgt, X)) ==> c == coeffs.0
    ensures forall c :: Solves(SystemMatrix(ln, src), c, Rhs(tgt, Y)) ==> c == coeffs.1
  {
    var L := AssembleSystem(ln, src);
    var vx := Rhs(tgt, X);
    var vy := Rhs(tgt, Y);
    PivotsIgnoreRhs(Grid(L), vx);
    PivotsIgnoreRhs(Grid(L), vy);
    var cx := SolveSystem(L, vx);
    var cy := SolveSystem(L, vy);
    Fitted(ln, cx, src, tgt, X);
    Fitted(ln, cy, src, tgt, Y);
    coeffs := (cx, cy);
    forall c | Solves(SystemMatrix(ln, src), c, Rhs(tgt, X)) ensures c == cx {
      CoefficientsUnique(ln, src, tgt, X, c, cx);
    }
    forall c | Solves(SystemMatrix(ln, src), c, Rhs(tgt, Y)) ensures c == cy {
      CoefficientsUnique(ln, src, tgt, Y, c, cy);
    }
  }

  /** With every pivot of L nonzero, each axis has exactly one coefficient
      vector that solves L·c = V: the fit is determined by the control
      points. */
  lemma CoefficientsUnique(ln: real -> real, src: seq<Point>, tgt: seq<Point>, a: Axis, c: seq<real>, d: seq<real>)
    requires |tgt| == |src| && PivotsNonzero(SystemMatrix(ln, src))
    requires Solves(SystemMatrix(ln, src), c, Rhs(tgt, a))
    requires Solves(SystemMatrix(ln, src), d, Rhs(tgt, a))
    ensures c == d
  {
    var A := SystemMatrix(ln, src);
    PivotsIgnoreRhs(A, Rhs(tgt, a));
    SolutionUnique(A, Rhs(tgt, a), c, d);
  }

  /** The warped position of q: on each axis, the affine part
      c[n] + c[n+1]·qx + c[n+2]·qy plus Σ c[i]·U(r²(q, srcᵢ)), accumulated
      over the source points in order. */
  method ApplyTPSTransformation(ln: real -> real, coeffs: (seq<real>, seq<real>), src: seq<Point>, q: Point)
    returns (r: Point)
    requires |coeffs.0| >= |src| + 3 && |coeffs.1| >= |src| + 3
    ensures r == Point(Transform(ln, coeffs.0, src, q), Transform(ln, coeffs.1, src, q))
  {
    var n := |src|;
    var cx, cy := coeffs.0, coeffs.1;
    var x := AffinePart(cx, n, q);
    var y := AffinePart(cy, n, q);
    for i := 0 to n
      invariant x == AffinePart(cx, n, q) + KernelSum(ln, cx, src, q, i)
      invariant y == AffinePart(cy, n, q) + KernelSum(ln, cy, src, q, i)
    {
      var r2 := SquaredDistance(q, src[i]);
      var u := Radial(ln, r2);
      WeightedKernel(ln, cx, src, q, i, u);
      WeightedKernel(ln, cy, src, q, i, u);
      Accumulated(ln, cx, src, q, i, x);
      Accumulated(ln, cy, src, q, i, y);
      x := x + cx[i] * u;
      y := y + cy[i] * u;
    }
    r := Point(x, y);
  }

  /** Affine reproduction: when the targets are the image of the sources
      under one affine map, the fitted coefficients on that axis are the
      map itself, with every kernel weight zero, and the warp equals the
      map at every point, between the control points as well. */
  lemma AffineReproduction(ln: real -> real, src: seq<Point>, tgt: seq<Point>, a: Axis,
                           a0: real, a1: real, a2: real, c: seq<real>)
    requires |tgt| == |src| && PivotsNonzero(SystemMatrix(ln, src))
    requires forall j :: 0 <= j < |src| ==> Coord(tgt[j], a) == AffineValue(a0, a1, a2, src[j])
    requires Solves(SystemMatrix(ln, src), c, Rhs(tgt, a))
    ensures c == AffineOnly(|src|, a0, a1, a2)
    ensures forall q :: Transform(ln, c, src, q) == AffineValue(a0, a1, a2, q)
  {
    AffineSolves(ln, src, tgt, a, a0, a1, a2);
    CoefficientsUnique(ln, src, tgt, a, c, AffineOnly(|src|, a0, a1, a2));
    forall q ensures Transform(ln, c, src, q) == AffineValue(a0, a1, a2, q) {
      AffineTransform(ln, src, q, a0, a1, a2);
    }
  }

  /** The square of side 10 warped onto the square of side 100: the
      centre (5, 5) goes to (50, 50). */
  lemma ScaledSquareCentre(ln: real -> real, cx: seq<real>, cy: seq<real>)
    requires PivotsNonzero(SystemMatrix(ln, Square()))
    requires Solves(SystemMatrix(ln, Square()), cx, Rhs(Scaled(), X))
    requires Solves(SystemMatrix(ln, Square()), cy, Rhs(Scaled(), Y))
    ensures Transform(ln, cx, Square(), Point(5.0, 5.0)) == 50.0
    ensures Transform(ln, cy, Square(), Point(5.0, 5.0)) == 50.0
  {
    ScaledIsAffine();
    AffineReproduction(ln, Square(), Scaled(), X, 0.0, 10.0, 0.0, cx);
    AffineReproduction(ln, Square(), Scaled(), Y, 0.0, 0.0, 10.0, cy);
  }
}
