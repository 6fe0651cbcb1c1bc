/** Finite sums of products of reals: every row-times-vector product of the
    warp engine (the kernel part of a transformed coordinate, a row of L·x)
    reduces to one of these. */
module Sums {

  /** The sum of u[j] * x[j] over lo <= j < hi, accumulated from the low
      index upward, as the engine's loops accumulate it. */
  function Sum(u: seq<real>, x: seq<real>, lo: int, hi: int): real
    requires 0 <= lo && hi <= |u| && hi <= |x|
    decreases hi - lo
  {
    if lo >= hi then 0.0 else Sum(u, x, lo, hi - 1) + u[hi - 1] * x[hi - 1]
  }

  /** The product of a row u with the whole vector x. */
  function Dot(u: seq<real>, x: seq<real>): real
    requires |x| <= |u|
  {
    Sum(u, x, 0, |x|)
  }

  /** A sum can be split off at its lowest term. */
  lemma {:induction false} SumPeel(u: seq<real>, x: seq<real>, lo: int, hi: int)
    requires 0 <= lo < hi <= |u| && hi <= |x|
    ensures Sum(u, x, lo, hi) == u[lo] * x[lo] + Sum(u, x, lo + 1, hi)
    decreases hi - lo
  {
    if lo + 1 < hi {
      SumPeel(u, x, lo, hi - 1);
    }
  }

  /** A sum depends only on the terms inside its range. */
  lemma {:induction false} SumAgree(u: seq<real>, x: seq<real>, v: seq<real>, y: seq<real>, lo: int, hi: int)
    requires 0 <= lo && hi <= |u| && hi <= |x| && hi <= |v| && hi <= |y|
    requires forall j :: lo <= j < hi ==> u[j] == v[j] && x[j] == y[j]
    ensures Sum(u, x, lo, hi) == Sum(v, y, lo, hi)
    decreases hi - lo
  {
    if lo < hi {
      SumAgree(u, x, v, y, lo, hi - 1);
    }
  }

  /** Leading zero coefficients contribute nothing. */
  lemma {:induction false} SumZeroPrefix(u: seq<real>, x: seq<real>, lo: int, hi: int)
    requires 0 <= lo <= hi <= |u| && hi <= |x|
    requires forall j :: 0 <= j < lo ==> u[j] == 0.0
    ensures Sum(u, x, 0, hi) == Sum(u, x, lo, hi)
    decreases lo
  {
    if lo > 0 {
      SumZeroPrefix(u, x, lo - 1, hi);
      SumPeel(u, x, lo - 1, hi);
    }
  }

  /** Against a vector that is zero on the range, a sum is zero. */
  lemma {:induction false} SumZeroVector(u: seq<real>, x: seq<real>, hi: int)
    requires 0 <= hi <= |u| && hi <= |x|
    requires forall j :: 0 <= j < hi ==> x[j] == 0.0
    ensures Sum(u, x, 0, hi) == 0.0
  {
    if hi > 0 {
      SumZeroVector(u, x, hi - 1);
    }
  }

  /** The coefficients u - f·v of an equation minus f times another. */
  function Combine(u: seq<real>, v: seq<real>, f: real): (w: seq<real>)
    requires |v| == |u|
    ensures |w| == |u|
    ensures forall c :: 0 <= c < |u| ==> w[c] == u[c] - f * v[c]
  {
    seq(|u|, c requires 0 <= c < |u| => u[c] - f * v[c])
  }

  /** A sum taken with the coefficients u - f·v is the same combination
      of the two sums. */
  lemma {:induction false} SumCombination(u: seq<real>, v: seq<real>, x: seq<real>, f: real, lo: int, hi: int)
    requires |v| == |u| && 0 <= lo && hi <= |u| && hi <= |x|
    ensures Sum(Combine(u, v, f), x, lo, hi) == Sum(u, x, lo, hi) - f * Sum(v, x, lo, hi)
    decreases hi - lo
  {
    if lo < hi {
      SumCombination(u, v, x, f, lo, hi - 1);
      var j := hi - 1;
      assert Combine(u, v, f)[j] * x[j] == u[j] * x[j] - f * (v[j] * x[j]);
    }
  }
}
