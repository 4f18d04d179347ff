/** Column-major indexing, length scales and the scaled squared distance
    between two rows of the m-by-n input matrix. */
module Geometry {

  /** Position of row r, column c in a column-major array with m rows. */
  function Idx(r: nat, c: nat, m: nat): nat
  {
    r + c * m
  }

  /** Every (row, column) of an m-by-n matrix has its slot inside the array. */
  lemma IdxBound(r: nat, c: nat, m: nat, n: nat)
    requires r < m && c < n
    ensures Idx(r, c, m) < m * n
  {
    assert c * m + m == (c + 1) * m;
    assert (c + 1) * m <= n * m by {
      MulMonotone(c + 1, n, m);
    }
  }

  /** Distinct (row, column) pairs occupy distinct slots. */
  lemma IdxDistinct(r: nat, c: nat, r': nat, c': nat, m: nat)
    requires r < m && r' < m && (r != r' || c != c')
    ensures Idx(r, c, m) != Idx(r', c', m)
  {
    if c < c' {
      MulMonotone(c + 1, c', m);
    } else if c' < c {
      MulMonotone(c' + 1, c, m);
    }
  }

  lemma MulMonotone(a: nat, b: nat, m: nat)
    requires a <= b
    ensures a * m <= b * m
  {
  }

  /** The diagonal slot of column j, written `j*(m+1)` in the source. */
  lemma DiagonalIdx(j: nat, m: nat)
    ensures Idx(j, j, m) == j * (m + 1)
  {
  }

  function Sq(d: real): real
  {
    d * d
  }

  lemma MulPositive(a: real, b: real)
    requires a > 0.0 && b > 0.0
    ensures a * b > 0.0
  {
  }

  /** A nonzero number has a positive square. */
  lemma SqPositive(d: real)
    requires d != 0.0
    ensures Sq(d) > 0.0
  {
    var e := if d > 0.0 then d else -d;
    assert Sq(d) == Sq(e);
    calc {
      Sq(e);
      e * e;
    > { MulPositive(e, e); }
      0.0;
    }
  }

  lemma SqNonNegative(d: real)
    ensures Sq(d) >= 0.0
  {
    if d != 0.0 {
      SqPositive(d);
    }
  }

  /** A length-scale vector as the validator accepts it: a scalar, or one
      entry per input dimension (so empty only when there is no dimension);
      entries are nonzero. */
  predicate LengthScalesOk(l: seq<real>, n: nat)
  {
    (|l| == 1 || |l| == n) && forall i :: 0 <= i < |l| ==> l[i] != 0.0
  }

  /** Squared length scale of dimension i: the i-th entry of a vector, or the
      shared scalar when only one is given (`lr > 1` decides). */
  function LengthScaleSq(l: seq<real>, i: nat): (rr: real)
    requires |l| >= 1 && (|l| > 1 ==> i < |l|)
    ensures (forall i :: 0 <= i < |l| ==> l[i] != 0.0) ==> rr > 0.0
  {
    if |l| > 1 then
      if l[i] != 0.0 then SqPositive(l[i]); Sq(l[i]) else Sq(l[i])
    else
      if l[0] != 0.0 then SqPositive(l[0]); Sq(l[0]) else Sq(l[0])
  }

  /** The per-dimension divisors `rr2[0..n)`. */
  function Weights(l: seq<real>, n: nat): (rr: seq<real>)
    requires LengthScalesOk(l, n)
    ensures |rr| == n
    ensures forall i :: 0 <= i < n ==> rr[i] > 0.0
  {
    seq(n, i requires 0 <= i < n => LengthScaleSq(l, i))
  }

  /** A scalar length scale L gives the same divisors as a vector whose
      entries are all L: isotropy is a special case of anisotropy. */
  lemma IsotropyConsistent(L: real, ls: seq<real>)
    requires L != 0.0 && |ls| >= 1
    requires forall i :: 0 <= i < |ls| ==> ls[i] == L
    ensures Weights([L], |ls|) == Weights(ls, |ls|)
  {
  }

  /** Shape of the data the distance needs: a column-major m-by-n matrix,
      one nonzero divisor per dimension. */
  predicate Shaped(x: seq<real>, m: nat, rr: seq<real>)
  {
    |x| == m * |rr| && forall i :: 0 <= i < |rr| ==> rr[i] != 0.0
  }

  /** Contribution of dimension d to the distance of rows a and b:
      (x[a,d] - x[b,d])^2 / rr[d]. */
  function DimTerm(x: seq<real>, m: nat, rr: seq<real>, d: nat, a: nat, b: nat): real
    requires Shaped(x, m, rr) && d < |rr| && a < m && b < m
  {
    IdxBound(a, d, m, |rr|);
    IdxBound(b, d, m, |rr|);
    Sq(x[Idx(a, d, m)] - x[Idx(b, d, m)]) / rr[d]
  }

  /** Scaled squared distance between rows a and b over the first d dimensions. */
  function PartialDist(x: seq<real>, m: nat, rr: seq<real>, d: nat, a: nat, b: nat): real
    requires Shaped(x, m, rr) && d <= |rr| && a < m && b < m
  {
    if d == 0 then 0.0
    else PartialDist(x, m, rr, d - 1, a, b) + DimTerm(x, m, rr, d - 1, a, b)
  }

  /** Scaled squared distance between rows a and b: the sum over all
      dimensions i of (x[a,i] - x[b,i])^2 / rr[i]. */
  function Dist(x: seq<real>, m: nat, rr: seq<real>, a: nat, b: nat): real
    requires Shaped(x, m, rr) && a < m && b < m
  {
    PartialDist(x, m, rr, |rr|, a, b)
  }

  /** The distance does not depend on the order of the two rows. */
  lemma {:induction false} PartialDistSymmetric(x: seq<real>, m: nat, rr: seq<real>, d: nat, a: nat, b: nat)
    requires Shaped(x, m, rr) && d <= |rr| && a < m && b < m
    ensures PartialDist(x, m, rr, d, a, b) == PartialDist(x, m, rr, d, b, a)
  {
    if d > 0 {
      PartialDistSymmetric(x, m, rr, d - 1, a, b);
      IdxBound(a, d - 1, m, |rr|);
      IdxBound(b, d - 1, m, |rr|);
      var u, v := x[Idx(a, d - 1, m)], x[Idx(b, d - 1, m)];
      assert Sq(u - v) == Sq(v - u);
    }
  }

  lemma DistSymmetric(x: seq<real>, m: nat, rr: seq<real>, a: nat, b: nat)
    requires Shaped(x, m, rr) && a < m && b < m
    ensures Dist(x, m, rr, a, b) == Dist(x, m, rr, b, a)
  {
    PartialDistSymmetric(x, m, rr, |rr|, a, b);
  }

  /** A row is at distance 0 from itself. */
  lemma {:induction false} PartialDistSelf(x: seq<real>, m: nat, rr: seq<real>, d: nat, a: nat)
    requires Shaped(x, m, rr) && d <= |rr| && a < m
    ensures PartialDist(x, m, rr, d, a, a) == 0.0
  {
    if d > 0 {
      PartialDistSelf(x, m, rr, d - 1, a);
    }
  }

  lemma DistSelf(x: seq<real>, m: nat, rr: seq<real>, a: nat)
    requires Shaped(x, m, rr) && a < m
    ensures Dist(x, m, rr, a, a) == 0.0
  {
    PartialDistSelf(x, m, rr, |rr|, a);
  }

  /** With positive divisors the distance is never negative. */
  lemma {:induction false} PartialDistNonNegative(x: seq<real>, m: nat, rr: seq<real>, d: nat, a: nat, b: nat)
    requires Shaped(x, m, rr) && d <= |rr| && a < m && b < m
    requires forall i :: 0 <= i < |rr| ==> rr[i] > 0.0
    ensures PartialDist(x, m, rr, d, a, b) >= 0.0
  {
    if d > 0 {
      PartialDistNonNegative(x, m, rr, d - 1, a, b);
      IdxBound(a, d - 1, m, |rr|);
      IdxBound(b, d - 1, m, |rr|);
      SqNonNegative(x[Idx(a, d - 1, m)] - x[Idx(b, d - 1, m)]);
    }
  }

  /** `ScaledSqDist`: the innermost distance loop over dimensions
      (`c += d*d/rr2[i]`), for rows j and k. */
  method ScaledSqDist(x: array<real>, m: nat, rr2: array<real>, j: nat, k: nat) returns (c: real)
    requires Shaped(x[..], m, rr2[..]) && j < m && k < m
    ensures c == Dist(x[..], m, rr2[..], j, k)
  {
    c := 0.0;
    var i := 0;
    while i < rr2.Length
      invariant 0 <= i <= rr2.Length
      invariant c == PartialDist(x[..], m, rr2[..], i, j, k)
    {
      IdxBound(j, i, m, rr2.Length);
      IdxBound(k, i, m, rr2.Length);
      var d := x[Idx(j, i, m)] - x[Idx(k, i, m)];
      c := c + Sq(d) / rr2[i];
      i := i + 1;
    }
  }
}
