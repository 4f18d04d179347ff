/** Coordinate (triplet) form of the strict upper triangle of a symmetric
    sparse matrix, and the per-column contents of the compressed-column
    matrix that the sparse assembler builds from it. A column c of the result
    holds, in this order: the triplets whose column is c (its upper part),
    the diagonal element, and the mirrored triplets whose row is c (its lower
    part). */
module Coo {
  import opened PrefixSum

  /** One stored strict-upper-triangle element: `It[t]`, `Jt[t]`, `Ct[t]`. */
  datatype Triplet = Triplet(row: nat, col: nat, val: real)

  /** One stored element of a compressed column: its row index and value. */
  datatype Entry = Entry(row: nat, val: real)

  /** The triplets held by three parallel arrays of equal length. */
  function Triplets(I: seq<nat>, J: seq<nat>, C: seq<real>): (T: seq<Triplet>)
    requires |I| == |J| == |C|
    ensures |T| == |I|
    ensures forall t :: 0 <= t < |T| ==> T[t] == Triplet(I[t], J[t], C[t])
  {
    seq(|I|, t requires 0 <= t < |I| => Triplet(I[t], J[t], C[t]))
  }

  /** The triplets with row and column swapped (the lower triangle). */
  function Mirror(T: seq<Triplet>): seq<Triplet>
  {
    seq(|T|, t requires 0 <= t < |T| => Triplet(T[t].col, T[t].row, T[t].val))
  }

  /** Elements that the triplets with column c put into column c, in triplet order. */
  function Upper(T: seq<Triplet>, c: nat): seq<Entry>
  {
    if T == [] then []
    else
      var last := T[|T| - 1];
      Upper(T[..|T| - 1], c) + (if last.col == c then [Entry(last.row, last.val)] else [])
  }

  /** Elements that the triplets with row c put, mirrored, into column c. */
  function Lower(T: seq<Triplet>, c: nat): seq<Entry>
  {
    Upper(Mirror(T), c)
  }

  /** Column c of the assembled matrix: upper part, diagonal, lower part. */
  function Column(T: seq<Triplet>, c: nat, ms: real): seq<Entry>
  {
    Upper(T, c) + [Entry(c, ms)] + Lower(T, c)
  }

  /** Column counts of the upper triangle (`w2` after counting). */
  function ColCounts(T: seq<Triplet>, m: nat): seq<nat>
  {
    seq(m, c requires 0 <= c < m => |Upper(T, c)|)
  }

  /** Row counts of the upper triangle (`w` after its first counting loop). */
  function RowCounts(T: seq<Triplet>, m: nat): seq<nat>
  {
    seq(m, c requires 0 <= c < m => |Lower(T, c)|)
  }

  /** Number of elements of each column of the assembled matrix
      (`w[k] + w2[k] + 1`). */
  function Degrees(T: seq<Triplet>, m: nat): seq<nat>
  {
    seq(m, c requires 0 <= c < m => |Lower(T, c)| + |Upper(T, c)| + 1)
  }

  /** Number of triplets whose column is below j. */
  function NumBefore(T: seq<Triplet>, j: nat): (r: nat)
    ensures r <= |T|
  {
    if T == [] then 0
    else NumBefore(T[..|T| - 1], j) + (if T[|T| - 1].col < j then 1 else 0)
  }

  predicate InColumns(T: seq<Triplet>, m: nat)
  {
    forall t :: 0 <= t < |T| ==> T[t].col < m
  }

  /** Every triplet lies strictly above the diagonal of an m-by-m matrix. */
  predicate StrictUpper(T: seq<Triplet>, m: nat)
  {
    forall t :: 0 <= t < |T| ==> T[t].row < T[t].col < m
  }

  /** Column-major order of positions: by column, then by row. */
  predicate Before(a: Triplet, b: Triplet)
  {
    a.col < b.col || (a.col == b.col && a.row < b.row)
  }

  /** The order in which the accumulation loop emits triplets: strictly
      upper, sorted by column and, within a column, by row. */
  predicate Ordered(T: seq<Triplet>, m: nat)
  {
    StrictUpper(T, m) && forall a, b :: 0 <= a < b < |T| ==> Before(T[a], T[b])
  }

  predicate RowsIncreasing(es: seq<Entry>)
  {
    forall p, q :: 0 <= p < q < |es| ==> es[p].row < es[q].row
  }

  /** Value stored at row r in a compressed column; 0 where nothing is stored. */
  function Lookup(es: seq<Entry>, r: nat): real
  {
    if es == [] then 0.0
    else if es[0].row == r then es[0].val
    else Lookup(es[1..], r)
  }

  /** Row r is structurally present in a compressed column. */
  predicate Present(es: seq<Entry>, r: nat)
  {
    exists p :: 0 <= p < |es| && es[p].row == r
  }

  // ---------------------------------------------------------------------
  // Growing the triplet sequence one element at a time

  lemma UpperStep(T: seq<Triplet>, k: nat, c: nat)
    requires k < |T|
    ensures Upper(T[..k + 1], c)
         == Upper(T[..k], c) + (if T[k].col == c then [Entry(T[k].row, T[k].val)] else [])
  {
    assert T[..k + 1][..k] == T[..k];
  }

  lemma MirrorPrefix(T: seq<Triplet>, k: nat)
    requires k <= |T|
    ensures Mirror(T[..k]) == Mirror(T)[..k]
  {
  }

  lemma LowerStep(T: seq<Triplet>, k: nat, c: nat)
    requires k < |T|
    ensures Lower(T[..k + 1], c)
         == Lower(T[..k], c) + (if T[k].row == c then [Entry(T[k].col, T[k].val)] else [])
  {
    MirrorPrefix(T, k + 1);
    MirrorPrefix(T, k);
    UpperStep(Mirror(T), k, c);
  }

  /** A prefix of the triplets contributes no more to a column than all of them. */
  lemma {:induction false} UpperPrefixLength(T: seq<Triplet>, k: nat, c: nat)
    requires k <= |T|
    ensures |Upper(T[..k], c)| <= |Upper(T, c)|
    decreases |T| - k
  {
    if k < |T| {
      UpperStep(T, k, c);
      UpperPrefixLength(T, k + 1, c);
    } else {
      assert T[..k] == T;
    }
  }

  lemma LowerPrefixLength(T: seq<Triplet>, k: nat, c: nat)
    requires k <= |T|
    ensures |Lower(T[..k], c)| <= |Lower(T, c)|
  {
    MirrorPrefix(T, k);
    UpperPrefixLength(Mirror(T), k, c);
  }

  // ---------------------------------------------------------------------
  // Counting: the column start offsets of the upper triangle

  lemma {:induction false} NumBeforeNext(T: seq<Triplet>, j: nat)
    ensures NumBefore(T, j + 1) == NumBefore(T, j) + |Upper(T, j)|
  {
    if T != [] {
      NumBeforeNext(T[..|T| - 1], j);
    }
  }

  /** The column counts of columns 0..j-1 add up to the number of triplets
      in those columns. */
  lemma {:induction false} SumColCounts(T: seq<Triplet>, j: nat)
    ensures Sum(ColCounts(T, j)) == NumBefore(T, j)
  {
    if j == 0 {
      if T != [] {
        SumColCounts(T[..|T| - 1], 0);
      }
    } else {
      assert ColCounts(T, j)[..j - 1] == ColCounts(T, j - 1);
      SumColCounts(T, j - 1);
      NumBeforeNext(T, j - 1);
    }
  }

  lemma {:induction false} NumBeforeAll(T: seq<Triplet>, m: nat)
    requires InColumns(T, m)
    ensures NumBefore(T, m) == |T|
  {
    if T != [] {
      NumBeforeAll(T[..|T| - 1], m);
    }
  }

  /** In a column-sorted triplet sequence the triplets of columns below j
      are exactly the first NumBefore(T, j). */
  lemma {:induction false} SortedNumBefore(T: seq<Triplet>, j: nat)
    requires forall a, b :: 0 <= a < b < |T| ==> T[a].col <= T[b].col
    ensures forall t :: 0 <= t < |T| ==> (T[t].col < j <==> t < NumBefore(T, j))
  {
    if T != [] {
      var n := |T| - 1;
      var P := T[..n];
      SortedNumBefore(P, j);
      if T[n].col < j {
        assert forall t :: 0 <= t < n ==> P[t].col < j;
        assert NumBefore(P, j) == n;
      }
    }
  }

  /** `cumsum2(Jc, w2, m)` makes `Jc[j]..Jc[j+1]` the index range of column j's
      triplets, because the accumulation emits them sorted by column. */
  lemma ColumnBlock(T: seq<Triplet>, m: nat, j: nat, k: nat)
    requires Ordered(T, m) && j < m
    requires PrefixSums(ColCounts(T, m))[j] <= k < PrefixSums(ColCounts(T, m))[j + 1]
    ensures k < |T| && T[k].col == j
  {
    var s := ColCounts(T, m);
    assert s[..j] == ColCounts(T, j);
    assert s[..j + 1] == ColCounts(T, j + 1);
    SumColCounts(T, j);
    SumColCounts(T, j + 1);
    SortedNumBefore(T, j);
    SortedNumBefore(T, j + 1);
  }

  /** The last upper-triangle column start is the number of triplets. */
  lemma UpperStartsTotal(T: seq<Triplet>, m: nat)
    requires InColumns(T, m)
    ensures PrefixSums(ColCounts(T, m))[m] == |T|
  {
    assert ColCounts(T, m)[..m] == ColCounts(T, m);
    SumColCounts(T, m);
    NumBeforeAll(T, m);
  }

  lemma {:induction false} SumDegrees(T: seq<Triplet>, m: nat)
    ensures Sum(Degrees(T, m)) == Sum(RowCounts(T, m)) + Sum(ColCounts(T, m)) + m
  {
    if m > 0 {
      assert Degrees(T, m)[..m - 1] == Degrees(T, m - 1);
      assert RowCounts(T, m)[..m - 1] == RowCounts(T, m - 1);
      assert ColCounts(T, m)[..m - 1] == ColCounts(T, m - 1);
      SumDegrees(T, m - 1);
    }
  }

  /** The assembled matrix has two elements per triplet plus the m diagonal
      elements: the `2*ind + m` storage the sparse matrix is created with. */
  lemma TotalEntries(T: seq<Triplet>, m: nat)
    requires StrictUpper(T, m)
    ensures Sum(Degrees(T, m)) == 2 * |T| + m
  {
    SumDegrees(T, m);
    assert ColCounts(T, m)[..m] == ColCounts(T, m);
    SumColCounts(T, m);
    NumBeforeAll(T, m);
    var M := Mirror(T);
    assert RowCounts(T, m) == ColCounts(M, m);
    assert ColCounts(M, m)[..m] == ColCounts(M, m);
    SumColCounts(M, m);
    NumBeforeAll(M, m);
  }

  // ---------------------------------------------------------------------
  // Where the elements of a column come from

  /** Every upper element of column c comes from a triplet of column c. */
  lemma {:induction false} UpperSource(T: seq<Triplet>, c: nat)
    ensures forall e :: e in Upper(T, c) ==>
      exists t :: 0 <= t < |T| && T[t].col == c && e == Entry(T[t].row, T[t].val)
  {
    if T != [] {
      var n := |T| - 1;
      var P := T[..n];
      UpperSource(P, c);
      forall e | e in Upper(T, c)
        ensures exists t :: 0 <= t < |T| && T[t].col == c && e == Entry(T[t].row, T[t].val)
      {
        if e in Upper(P, c) {
          var t :| 0 <= t < |P| && P[t].col == c && e == Entry(P[t].row, P[t].val);
          assert T[t] == P[t];
        } else {
          assert T[n].col == c && e == Entry(T[n].row, T[n].val);
        }
      }
    }
  }

  /** Every triplet of column c is an upper element of column c. */
  lemma {:induction false} UpperComplete(T: seq<Triplet>, t: nat)
    requires t < |T|
    ensures Entry(T[t].row, T[t].val) in Upper(T, T[t].col)
  {
    var n := |T| - 1;
    if t < n {
      UpperComplete(T[..n], t);
    }
  }

  lemma {:induction false} UpperIncreasing(T: seq<Triplet>, c: nat)
    requires forall a, b :: 0 <= a < b < |T| && T[a].col == c && T[b].col == c ==> T[a].row < T[b].row
    ensures RowsIncreasing(Upper(T, c))
  {
    if T != [] {
      var n := |T| - 1;
      var P := T[..n];
      UpperIncreasing(P, c);
      UpperSource(P, c);
      var UP := Upper(P, c);
      if T[n].col == c {
        assert Upper(T, c) == UP + [Entry(T[n].row, T[n].val)];
        forall q | 0 <= q < |UP|
          ensures UP[q].row < T[n].row
        {
          assert UP[q] in UP;
          var t :| 0 <= t < |P| && P[t].col == c && UP[q] == Entry(P[t].row, P[t].val);
          assert T[t] == P[t];
        }
      } else {
        assert Upper(T, c) == UP;
      }
    }
  }

  /** Upper elements of column c sit above the diagonal. */
  lemma UpperRowsBelow(T: seq<Triplet>, m: nat, c: nat)
    requires StrictUpper(T, m)
    ensures forall p :: 0 <= p < |Upper(T, c)| ==> Upper(T, c)[p].row < c
  {
    UpperSource(T, c);
  }

  /** Lower elements of column c sit below the diagonal. */
  lemma LowerRowsAbove(T: seq<Triplet>, m: nat, c: nat)
    requires StrictUpper(T, m)
    ensures forall p :: 0 <= p < |Lower(T, c)| ==> Lower(T, c)[p].row > c
  {
    var M := Mirror(T);
    UpperSource(M, c);
    forall p | 0 <= p < |Lower(T, c)|
      ensures Lower(T, c)[p].row > c
    {
      assert Lower(T, c)[p] in Upper(M, c);
      var t :| 0 <= t < |M| && M[t].col == c && Lower(T, c)[p] == Entry(M[t].row, M[t].val);
      assert T[t].row < T[t].col;
    }
  }

  // ---------------------------------------------------------------------
  // Properties of an assembled column

  /** Column c holds exactly one element on the diagonal, right after its
      upper part, and its value is ms. */
  lemma ColumnDiagonal(T: seq<Triplet>, m: nat, c: nat, ms: real)
    requires StrictUpper(T, m)
    ensures |Column(T, c, ms)| == |Upper(T, c)| + 1 + |Lower(T, c)|
    ensures Column(T, c, ms)[|Upper(T, c)|] == Entry(c, ms)
    ensures forall p :: 0 <= p < |Column(T, c, ms)| ==> (Column(T, c, ms)[p].row == c <==> p == |Upper(T, c)|)
  {
    UpperRowsBelow(T, m, c);
    LowerRowsAbove(T, m, c);
    var U, L := Upper(T, c), Lower(T, c);
    var col := Column(T, c, ms);
    assert forall p :: 0 <= p < |U| ==> col[p] == U[p];
    assert forall p :: |U| < p < |col| ==> col[p] == L[p - |U| - 1];
  }

  /** Within column c the rows strictly increase: upper rows, then c, then
      lower rows. */
  lemma ColumnSorted(T: seq<Triplet>, m: nat, c: nat, ms: real)
    requires Ordered(T, m)
    ensures RowsIncreasing(Column(T, c, ms))
  {
    var M := Mirror(T);
    UpperIncreasing(T, c);
    assert forall a, b :: 0 <= a < b < |M| && M[a].col == c && M[b].col == c ==> M[a].row < M[b].row by {
      forall a, b | 0 <= a < b < |M| && M[a].col == c && M[b].col == c
        ensures M[a].row < M[b].row
      {
        assert Before(T[a], T[b]);
      }
    }
    UpperIncreasing(M, c);
    UpperRowsBelow(T, m, c);
    LowerRowsAbove(T, m, c);
    var U, L := Upper(T, c), Lower(T, c);
    var col := Column(T, c, ms);
    assert forall p :: 0 <= p < |U| ==> col[p] == U[p];
    assert col[|U|] == Entry(c, ms);
    assert forall p :: |U| < p < |col| ==> col[p] == L[p - |U| - 1];
  }

  /** Each off-diagonal element of column c is a triplet at (row, c) or,
      mirrored, at (c, row), with that triplet's value. */
  lemma ColumnSource(T: seq<Triplet>, m: nat, c: nat, ms: real, p: nat)
    requires StrictUpper(T, m)
    requires p < |Column(T, c, ms)| && Column(T, c, ms)[p].row != c
    ensures exists t :: (0 <= t < |T| && T[t].val == Column(T, c, ms)[p].val &&
      ((T[t].row == Column(T, c, ms)[p].row && T[t].col == c) ||
       (T[t].col == Column(T, c, ms)[p].row && T[t].row == c)))
  {
    var U, L := Upper(T, c), Lower(T, c);
    var col := Column(T, c, ms);
    UpperSource(T, c);
    UpperSource(Mirror(T), c);
    if p < |U| {
      assert col[p] == U[p] && U[p] in U;
    } else {
      assert p != |U| by {
        assert col[|U|] == Entry(c, ms);
      }
      assert col[p] == L[p - |U| - 1];
      var M := Mirror(T);
      assert col[p] in Upper(M, c);
      var t :| 0 <= t < |M| && M[t].col == c && col[p] == Entry(M[t].row, M[t].val);
      assert T[t].row == c && T[t].col == col[p].row;
    }
  }

  lemma {:induction false} LookupFound(es: seq<Entry>, p: nat)
    requires RowsIncreasing(es) && p < |es|
    ensures Lookup(es, es[p].row) == es[p].val
  {
    if p > 0 {
      assert es[0].row < es[p].row;
      assert es[1..][p - 1] == es[p];
      LookupFound(es[1..], p - 1);
    }
  }

  lemma {:induction false} LookupAbsent(es: seq<Entry>, r: nat)
    requires !Present(es, r)
    ensures Lookup(es, r) == 0.0
  {
    if es != [] {
      assert es[0].row != r;
      assert !Present(es[1..], r) by {
        forall p | 0 <= p < |es| - 1 ensures es[1..][p].row != r {
          assert es[1..][p] == es[p + 1];
        }
      }
      LookupAbsent(es[1..], r);
    }
  }

  /** The triplets at a position of an ordered sequence are unique. */
  lemma OrderedUnique(T: seq<Triplet>, m: nat, a: nat, b: nat)
    requires Ordered(T, m) && a < |T| && b < |T|
    requires T[a].row == T[b].row && T[a].col == T[b].col
    ensures a == b
  {
  }

  /** Off the diagonal, the value stored in column c at row r is the value of
      the triplet at {r, c}; the element is present exactly when such a
      triplet exists. */
  lemma ColumnAt(T: seq<Triplet>, m: nat, ms: real, r: nat, c: nat)
    requires Ordered(T, m) && r != c
    ensures Present(Column(T, c, ms), r) <==> exists t :: 0 <= t < |T| && Covers(T[t], r, c)
    ensures forall t :: 0 <= t < |T| && Covers(T[t], r, c) ==> Lookup(Column(T, c, ms), r) == T[t].val
    ensures (forall t :: 0 <= t < |T| ==> !Covers(T[t], r, c)) ==> Lookup(Column(T, c, ms), r) == 0.0
  {
    var col := Column(T, c, ms);
    ColumnSorted(T, m, c, ms);
    if exists t :: 0 <= t < |T| && Covers(T[t], r, c) {
      var t :| 0 <= t < |T| && Covers(T[t], r, c);
      var e := if T[t].col == c then Entry(T[t].row, T[t].val) else Entry(T[t].col, T[t].val);
      assert e in col by {
        UpperComplete(T, t);
        UpperComplete(Mirror(T), t);
      }
      var p :| 0 <= p < |col| && col[p] == e;
      LookupFound(col, p);
      forall t' | 0 <= t' < |T| && Covers(T[t'], r, c)
        ensures Lookup(col, r) == T[t'].val
      {
        assert T[t].row == T[t'].row && T[t].col == T[t'].col;
        OrderedUnique(T, m, t, t');
      }
    } else {
      assert !Present(col, r) by {
        forall p | 0 <= p < |col| ensures col[p].row != r {
          if col[p].row == r {
            ColumnSource(T, m, c, ms, p);
          }
        }
      }
      LookupAbsent(col, r);
    }
  }

  /** Triplet t sits at position {r, c} of the symmetric matrix. */
  predicate Covers(t: Triplet, r: nat, c: nat)
  {
    (t.row == r && t.col == c) || (t.row == c && t.col == r)
  }

  /** The assembled matrix is symmetric, structurally and in its values, and
      its diagonal is ms. */
  lemma Symmetric(T: seq<Triplet>, m: nat, ms: real, r: nat, c: nat)
    requires Ordered(T, m)
    ensures Present(Column(T, c, ms), r) <==> Present(Column(T, r, ms), c)
    ensures Lookup(Column(T, c, ms), r) == Lookup(Column(T, r, ms), c)
    ensures Present(Column(T, c, ms), c) && Lookup(Column(T, c, ms), c) == ms
  {
    if r != c {
      ColumnAt(T, m, ms, r, c);
      ColumnAt(T, m, ms, c, r);
      assert forall t :: 0 <= t < |T| ==> (Covers(T[t], r, c) <==> Covers(T[t], c, r));
    }
    ColumnDiagonal(T, m, c, ms);
    ColumnSorted(T, m, c, ms);
    LookupFound(Column(T, c, ms), |Upper(T, c)|);
  }
}
