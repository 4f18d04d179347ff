/** The gateway: after validation, the dense kernels build the full m-by-m
    matrix and the compact-support kernels build a compressed-column sparse
    one. */
module TrCov {
  import opened PrefixSum
  import opened Geometry
  import opened Coo
  import opened Accumulate
  import opened Sparse
  import opened Dense
  import opened Params

  /** The gateway's output: a dense column-major m-by-m array, or a sparse
      matrix held as row indices, column starts and values. */
  datatype Matrix =
    | Full(size: nat, entries: seq<real>)
    | Compressed(size: nat, rowIdx: seq<nat>, colStart: seq<nat>, vals: seq<real>)

  /** Column starts of an m-by-m sparse matrix: m + 1 nondecreasing offsets
      from 0 to the number of stored entries. */
  predicate ColumnStarts(I: seq<nat>, C: seq<real>, J: seq<nat>, m: nat)
  {
    && |J| == m + 1 && J[0] == 0 && |I| == J[m] && |C| == J[m]
    && forall c, d :: 0 <= c <= d <= m ==> J[c] <= J[d]
  }

  /** The sparse covariance matrix: each column lists its rows in increasing
      order; off the diagonal it stores row r exactly when the scaled
      distance is below 1, with the kernel value `kern(dist)`, and the
      diagonal holds ms. */
  ghost predicate SparseCov(I: seq<nat>, C: seq<real>, J: seq<nat>, x: seq<real>, m: nat, rr: seq<real>,
                            ms: real, kern: real -> real)
    requires Shaped(x, m, rr)
  {
    && ColumnStarts(I, C, J, m)
    && (forall c :: 0 <= c < m ==> RowsIncreasing(CscColumn(I, C, J, c)))
    && (forall c :: 0 <= c < m ==> Present(CscColumn(I, C, J, c), c) && Lookup(CscColumn(I, C, J, c), c) == ms)
    && (forall r, c :: 0 <= r < m && 0 <= c < m && r != c ==>
          (Present(CscColumn(I, C, J, c), r) <==> Dist(x, m, rr, r, c) < 1.0))
    && (forall r, c :: 0 <= r < m && 0 <= c < m && r != c ==>
          Lookup(CscColumn(I, C, J, c), r) == if Dist(x, m, rr, r, c) < 1.0 then kern(Dist(x, m, rr, r, c)) else 0.0)
  }

  /** The pair distance the accumulation uses is the symmetric distance. */
  lemma PairDistOf(x: seq<real>, m: nat, rr: seq<real>, r: nat, c: nat)
    requires Shaped(x, m, rr) && r < m && c < m
    ensures PairDist(DistOf(x, m, rr), r, c) == Dist(x, m, rr, r, c)
  {
    if r < c {
      DistSymmetric(x, m, rr, r, c);
    }
  }

  /** The columns of the assembled triplets are the sparse covariance. */
  lemma SupportCovariance(I: seq<nat>, C: seq<real>, J: seq<nat>, x: seq<real>, m: nat, rr: seq<real>,
                          ms: real, kern: real -> real)
    requires Shaped(x, m, rr) && ColumnStarts(I, C, J, m)
    requires forall c :: 0 <= c < m ==> CscColumn(I, C, J, c) == Column(Support(DistOf(x, m, rr), kern, m), c, ms)
    ensures SparseCov(I, C, J, x, m, rr, ms, kern)
  {
    var dist := DistOf(x, m, rr);
    var T := Support(dist, kern, m);
    SupportExact(dist, kern, m);
    forall c | 0 <= c < m
      ensures RowsIncreasing(CscColumn(I, C, J, c))
      ensures Present(CscColumn(I, C, J, c), c) && Lookup(CscColumn(I, C, J, c), c) == ms
    {
      ColumnSorted(T, m, c, ms);
      Symmetric(T, m, ms, c, c);
    }
    forall r, c | 0 <= r < m && 0 <= c < m && r != c
      ensures Present(CscColumn(I, C, J, c), r) <==> Dist(x, m, rr, r, c) < 1.0
      ensures Lookup(CscColumn(I, C, J, c), r)
           == if Dist(x, m, rr, r, c) < 1.0 then kern(Dist(x, m, rr, r, c)) else 0.0
    {
      SupportColumns(dist, kern, m, ms, r, c);
      PairDistOf(x, m, rr, r, c);
    }
  }

  /** `gpcf_ppcs0` .. `gpcf_ppcs3`: length scales, the triplets of the
      support, then the compressed-column matrix. */
  method SparseCovariance(x: array<real>, m: nat, n: nat, l: array<real>, ms: real, kern: real -> real)
    returns (I: array<nat>, J: array<nat>, C: array<real>)
    requires x.Length == m * n && LengthScalesOk(l[..], n)
    ensures SparseCov(I[..], C[..], J[..], x[..], m, Weights(l[..], n), ms, kern)
    ensures J[m] == m + 2 * |ClosePairs(DistOf(x[..], m, Weights(l[..], n)), m)|
  {
    var rr2 := SquaredScales(l, n);
    ghost var rr := rr2[..];
    var It, Jt, Ct := CollectTriplets(x, m, rr2, kern);
    SupportOrdered(DistOf(x[..], m, rr), kern, m, m);
    SupportCount(DistOf(x[..], m, rr), kern, m);
    I, J, C := AssembleSparse(It, Jt, Ct, m, ms);
    assert J[0] == 0 by {
      PrefixSumsShape(Degrees(Triplets(It[..], Jt[..], Ct[..]), m));
    }
    SupportCovariance(I[..], C[..], J[..], x[..], m, rr, ms, kern);
  }

  /** The dense covariance matrix entry by entry. */
  ghost predicate DenseCov(C: seq<real>, x: seq<real>, m: nat, rr: seq<real>, ms: real, kern: real -> real)
    requires Shaped(x, m, rr)
  {
    |C| == m * m && forall r, c :: 0 <= r < m && 0 <= c < m ==> Cell(C, m, r, c) == Covariance(x, m, rr, ms, kern, r, c)
  }

  /** The kernel formulas, from kernel, magnitude, `gpcf.l` and scaled
      squared distance to covariance value (floating-point numerics are not
      part of this model). */
  type Formula = (Kernel, real, real, real) -> real

  function KernelOf(f: Formula, p: Inputs): real -> real
  {
    c => f(p.kernel, p.ms, p.order, c)
  }

  /** Validated inputs the kernels can evaluate: a scalar or one length
      scale per column, no length scale zero. */
  predicate Evaluable(p: Inputs)
  {
    |p.x| == p.m * p.n && LengthScalesOk(p.l, p.n)
  }

  /** M is the covariance matrix of the validated inputs p. */
  ghost predicate Represents(M: Matrix, p: Inputs, f: Formula)
    requires Evaluable(p)
  {
    M.size == p.m
    && if CompactSupport(p.kernel) then
         M.Compressed? && SparseCov(M.rowIdx, M.vals, M.colStart, p.x, p.m, Weights(p.l, p.n), p.ms, KernelOf(f, p))
       else
         M.Full? && DenseCov(M.entries, p.x, p.m, Weights(p.l, p.n), p.ms, KernelOf(f, p))
  }

  /** No length scale is zero: the source divides by it. */
  predicate NonzeroScales(gpcf: Struct)
  {
    "lengthScale" in gpcf ==> forall i :: 0 <= i < |gpcf["lengthScale"].data| ==> gpcf["lengthScale"].data[i] != 0.0
  }

  method ToArray(s: seq<real>) returns (a: array<real>)
    ensures a[..] == s
  {
    a := new real[|s|](i => if 0 <= i < |s| then s[i] else 0.0);
  }

  /** The gateway: it fails with the error validation reports, and otherwise
      returns the covariance matrix of the validated inputs. */
  method Gateway(nlhs: int, nrhs: int, gpcf: Struct, X: MxArray, f: Formula) returns (r: Result<Matrix>)
    requires WellFormed(X) && StructWellFormed(gpcf)
    requires Validate(nlhs, nrhs, gpcf, X).Ok? ==> NonzeroScales(gpcf)
    ensures r.Fail? <==> Validate(nlhs, nrhs, gpcf, X).Fail?
    ensures r.Fail? ==> r.error == Validate(nlhs, nrhs, gpcf, X).error
    ensures r.Ok? ==> Evaluable(Validate(nlhs, nrhs, gpcf, X).value)
    ensures r.Ok? ==> Represents(r.value, Validate(nlhs, nrhs, gpcf, X).value, f)
  {
    var v := Validate(nlhs, nrhs, gpcf, X);
    if v.Fail? {
      return Fail(v.error);
    }
    var p := v.value;
    assert Evaluable(p);
    var x := ToArray(p.x);
    var l := ToArray(p.l);
    var kern := KernelOf(f, p);
    if CompactSupport(p.kernel) {
      var I, J, C := SparseCovariance(x, p.m, p.n, l, p.ms, kern);
      r := Ok(Compressed(p.m, I[..], J[..], C[..]));
    } else {
      var C := DenseCovariance(x, p.m, p.n, l, p.ms, kern);
      r := Ok(Full(p.m, C[..]));
    }
  }
}
