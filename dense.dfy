/** The dense kernels: the scaled squared distances are accumulated,
    dimension by dimension, into the upper triangle of a zero-initialised
    column-major m-by-m array; each is then turned into a covariance by the
    kernel, clamped to 0 when not above eps, and mirrored into the lower
    triangle; the diagonal is set to the magnitude ms. */
module Dense {
  import opened Geometry

  /** `mxGetEps()`: the spacing of doubles at 1, 2^-52. */
  const Eps: real := 1.0 / 4503599627370496.0

  /** `d = (d > eps) ? d : 0`. */
  function Clamp(v: real): (r: real)
  {
    if v > Eps then v else 0.0
  }

  /** A clamped value is 0 or above eps, and values above eps pass unchanged. */
  lemma ClampRange(v: real)
    ensures Clamp(v) == 0.0 || Clamp(v) > Eps
    ensures Clamp(v) == v <==> v > Eps || v == 0.0
  {
  }

  /** Element (r, c) of a column-major m-by-m array. */
  function Cell(C: seq<real>, m: nat, r: nat, c: nat): real
    requires |C| == m * m && r < m && c < m
  {
    IdxBound(r, c, m, m);
    C[Idx(r, c, m)]
  }

  /** Writing element (r, c) changes that element and no other. */
  lemma CellUpdate(C: seq<real>, m: nat, r: nat, c: nat, v: real)
    requires |C| == m * m && r < m && c < m
    ensures Idx(r, c, m) < |C|
    ensures forall a, b :: 0 <= a < m && 0 <= b < m ==>
      Cell(C[Idx(r, c, m) := v], m, a, b) == if a == r && b == c then v else Cell(C, m, a, b)
  {
    IdxBound(r, c, m, m);
    var C' := C[Idx(r, c, m) := v];
    forall a, b | 0 <= a < m && 0 <= b < m
      ensures Cell(C', m, a, b) == if a == r && b == c then v else Cell(C, m, a, b)
    {
      IdxBound(a, b, m, m);
      if a != r || b != c {
        IdxDistinct(a, b, r, c, m);
        assert C'[Idx(a, b, m)] == C[Idx(a, b, m)];
      }
    }
  }

  /** The upper triangle after dimensions 0..i-1 of columns 0..j-1 and
      dimensions 0..i'-1 of the others, where i' is i or i+1; the lower
      triangle and the diagonal are still 0. */
  ghost predicate Accumulated(C: seq<real>, x: seq<real>, m: nat, rr: seq<real>, i: nat, j: nat)
    requires Shaped(x, m, rr) && i < |rr|
  {
    |C| == m * m &&
    forall a, b :: 0 <= a < m && 0 <= b < m ==>
      Cell(C, m, a, b) == if a < b then PartialDist(x, m, rr, if b < j then i + 1 else i, b, a) else 0.0
  }

  /** The upper triangle after all dimensions: the distance of each pair. */
  ghost predicate Distances(C: seq<real>, x: seq<real>, m: nat, rr: seq<real>)
    requires Shaped(x, m, rr)
  {
    |C| == m * m &&
    forall a, b :: 0 <= a < m && 0 <= b < m ==>
      Cell(C, m, a, b) == if a < b then Dist(x, m, rr, b, a) else 0.0
  }

  /** The innermost loop for dimension i and column j: `C[j*m+k] += d*d/rr`
      for every row k above the diagonal. */
  method AddDimensionColumn(C: array<real>, x: array<real>, m: nat, rr: real, ghost W: seq<real>, i: nat, j: nat)
    requires C != x && C.Length == m * m && Shaped(x[..], m, W) && i < |W| && W[i] == rr && j < m
    modifies C
    ensures forall a, b :: 0 <= a < m && 0 <= b < m ==>
      Cell(C[..], m, a, b) == if b == j && a < j then Cell(old(C[..]), m, a, b) + DimTerm(x[..], m, W, i, j, a)
                              else Cell(old(C[..]), m, a, b)
  {
    var k := 0;
    while k < j
      invariant k <= j
      invariant forall a, b :: 0 <= a < m && 0 <= b < m ==>
        Cell(C[..], m, a, b) == if b == j && a < k then Cell(old(C[..]), m, a, b) + DimTerm(x[..], m, W, i, j, a)
                                else Cell(old(C[..]), m, a, b)
    {
      IdxBound(j, i, m, |W|);
      IdxBound(k, i, m, |W|);
      var d := x[Idx(j, i, m)] - x[Idx(k, i, m)];
      assert Sq(d) / rr == DimTerm(x[..], m, W, i, j, k);
      ghost var before := C[..];
      CellUpdate(before, m, k, j, Cell(before, m, k, j) + Sq(d) / rr);
      C[Idx(k, j, m)] := C[Idx(k, j, m)] + Sq(d) / rr;
      assert C[..] == before[Idx(k, j, m) := Cell(before, m, k, j) + Sq(d) / rr];
      k := k + 1;
    }
  }

  /** One dimension i over all columns: `for (j...) for (k < j)`. */
  method AddDimension(C: array<real>, x: array<real>, m: nat, rr: real, ghost W: seq<real>, i: nat)
    requires C != x && Shaped(x[..], m, W) && i < |W| && W[i] == rr
    requires Accumulated(C[..], x[..], m, W, i, 0)
    modifies C
    ensures Accumulated(C[..], x[..], m, W, i, m)
  {
    var j := 0;
    while j < m
      invariant j <= m
      invariant Accumulated(C[..], x[..], m, W, i, j)
    {
      AddDimensionColumn(C, x, m, rr, W, i, j);
      j := j + 1;
    }
  }

  /** The accumulation phase: `for (i = 0; i < n; i++, x += m)` with
      `rr = (lr > 1) ? l[i]*l[i] : l[0]*l[0]`. */
  method AccumulateDistances(x: array<real>, m: nat, n: nat, l: array<real>) returns (C: array<real>)
    requires x.Length == m * n && LengthScalesOk(l[..], n)
    ensures fresh(C)
    ensures Distances(C[..], x[..], m, Weights(l[..], n))
  {
    ghost var W := Weights(l[..], n);
    C := new real[m * m](_ => 0.0);
    forall a, b | 0 <= a < m && 0 <= b < m
      ensures Cell(C[..], m, a, b) == 0.0
    {
      IdxBound(a, b, m, m);
    }
    var i := 0;
    while i < n
      invariant i <= n
      invariant C.Length == m * m
      invariant forall a, b :: 0 <= a < m && 0 <= b < m ==>
        Cell(C[..], m, a, b) == if a < b then PartialDist(x[..], m, W, i, b, a) else 0.0
    {
      var rr := if l.Length > 1 then Sq(l[i]) else Sq(l[0]);
      assert rr == W[i];
      AddDimension(C, x, m, rr, W, i);
      i := i + 1;
    }
  }

  /** The covariance the dense kernels assign to rows r and c: the magnitude
      ms on the diagonal, elsewhere the kernel of their distance, clamped. */
  function Covariance(x: seq<real>, m: nat, rr: seq<real>, ms: real, kern: real -> real, r: nat, c: nat): real
    requires Shaped(x, m, rr) && r < m && c < m
  {
    if r == c then ms else Clamp(kern(Dist(x, m, rr, r, c)))
  }

  /** The covariance is symmetric, is ms on the diagonal, and off the
      diagonal is exactly 0 or above eps. */
  lemma CovarianceFacts(x: seq<real>, m: nat, rr: seq<real>, ms: real, kern: real -> real, r: nat, c: nat)
    requires Shaped(x, m, rr) && r < m && c < m
    ensures Covariance(x, m, rr, ms, kern, r, c) == Covariance(x, m, rr, ms, kern, c, r)
    ensures Covariance(x, m, rr, ms, kern, r, r) == ms
    ensures r != c ==> Covariance(x, m, rr, ms, kern, r, c) == 0.0 || Covariance(x, m, rr, ms, kern, r, c) > Eps
  {
    DistSymmetric(x, m, rr, r, c);
  }

  /** The transform of one upper element (k, j): `d = kern(C[j*m+k])`,
      clamped, stored at (k, j) and mirrored to (j, k). */
  method TransformPair(C: array<real>, m: nat, kern: real -> real, k: nat, j: nat)
    requires C.Length == m * m && k < j < m
    modifies C
    ensures forall a, b :: 0 <= a < m && 0 <= b < m ==>
      Cell(C[..], m, a, b) ==
        if (a == k && b == j) || (a == j && b == k) then Clamp(kern(Cell(old(C[..]), m, k, j)))
        else Cell(old(C[..]), m, a, b)
  {
    IdxBound(k, j, m, m);
    var d := kern(C[Idx(k, j, m)]);
    d := Clamp(d);
    ghost var s0 := C[..];
    CellUpdate(s0, m, k, j, d);
    C[Idx(k, j, m)] := d;
    ghost var s1 := C[..];
    assert s1 == s0[Idx(k, j, m) := d];
    CellUpdate(s1, m, j, k, d);
    C[Idx(j, k, m)] := d;
    assert C[..] == s1[Idx(j, k, m) := d];
  }

  /** The transform of column j: every upper element (k, j), k < j, in
      turn, then the diagonal `C[j*(m+1)] = ms`. */
  method TransformColumn(C: array<real>, m: nat, ms: real, kern: real -> real, j: nat)
    requires C.Length == m * m && j < m
    modifies C
    ensures forall a, b :: 0 <= a < m && 0 <= b < m ==>
      Cell(C[..], m, a, b) ==
        if b == j && a < j then Clamp(kern(Cell(old(C[..]), m, a, j)))
        else if a == j && b < j then Clamp(kern(Cell(old(C[..]), m, b, j)))
        else if a == j && b == j then ms
        else Cell(old(C[..]), m, a, b)
  {
    var k := 0;
    while k < j
      invariant k <= j
      invariant forall a, b :: 0 <= a < m && 0 <= b < m ==>
        Cell(C[..], m, a, b) ==
          if b == j && a < k then Clamp(kern(Cell(old(C[..]), m, a, j)))
          else if a == j && b < k then Clamp(kern(Cell(old(C[..]), m, b, j)))
          else Cell(old(C[..]), m, a, b)
    {
      TransformPair(C, m, kern, k, j);
      k := k + 1;
    }
    ghost var s2 := C[..];
    CellUpdate(s2, m, j, j, ms);
    DiagonalIdx(j, m);
    C[j * (m + 1)] := ms;
    assert C[..] == s2[Idx(j, j, m) := ms];
    forall a, b | 0 <= a < m && 0 <= b < m
      ensures Cell(C[..], m, a, b) ==
        if b == j && a < j then Clamp(kern(Cell(old(C[..]), m, a, j)))
        else if a == j && b < j then Clamp(kern(Cell(old(C[..]), m, b, j)))
        else if a == j && b == j then ms
        else Cell(old(C[..]), m, a, b)
    {
      if a != j || b != j {
        assert Cell(C[..], m, a, b) == Cell(s2, m, a, b);
      }
    }
  }

  /** The transform phase after columns 0..j-1: every element with both
      indices below j holds its covariance, the rest still the distances. */
  ghost predicate Transformed(C: seq<real>, x: seq<real>, m: nat, rr: seq<real>, ms: real, kern: real -> real, j: nat)
    requires Shaped(x, m, rr)
  {
    |C| == m * m &&
    forall a, b :: 0 <= a < m && 0 <= b < m ==>
      Cell(C, m, a, b) ==
        if a < j && b < j then Covariance(x, m, rr, ms, kern, a, b)
        else if a < b then Dist(x, m, rr, b, a) else 0.0
  }

  /** A dense kernel: the m-by-m covariance matrix of the rows of the
      m-by-n input x, with length scales l, magnitude ms and the kernel
      `kern` of the scaled squared distance. */
  method DenseCovariance(x: array<real>, m: nat, n: nat, l: array<real>, ms: real, kern: real -> real)
    returns (C: array<real>)
    requires x.Length == m * n && LengthScalesOk(l[..], n)
    ensures C.Length == m * m
    ensures forall r, c :: 0 <= r < m && 0 <= c < m ==>
      Cell(C[..], m, r, c) == Covariance(x[..], m, Weights(l[..], n), ms, kern, r, c)
  {
    ghost var W := Weights(l[..], n);
    C := AccumulateDistances(x, m, n, l);
    var j := 0;
    while j < m
      invariant j <= m
      invariant Transformed(C[..], x[..], m, W, ms, kern, j)
    {
      TransformColumn(C, m, ms, kern, j);
      forall a, b | 0 <= a < m && 0 <= b < m && a < b
        ensures Dist(x[..], m, W, b, a) == Dist(x[..], m, W, a, b)
      {
        DistSymmetric(x[..], m, W, a, b);
      }
      j := j + 1;
    }
  }
}
