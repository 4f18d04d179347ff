/** The first phase of a compact-support kernel: walking the strict upper
    triangle column by column and storing, in three parallel buffers that
    grow by doubling, every pair of rows whose scaled squared distance is
    below 1, together with the kernel value there. */
module Accumulate {
  import opened Geometry
  import opened Coo

  /** Initial buffer capacity `max(1, floor(0.05*m*m))`: five percent of the
      full matrix, and never zero, so that doubling always makes room. */
  function InitialCapacity(m: nat): (cap: nat)
    ensures cap >= 1
    ensures cap == if m * m < 20 then 1 else m * m / 20
  {
    FloorTwentieth(m * m);
    var f := (0.05 * ((m * m) as real)).Floor;
    if f < 1 then 1 else f
  }

  lemma FloorTwentieth(N: nat)
    ensures (0.05 * (N as real)).Floor == N / 20
  {
    var q, r := N / 20, N % 20;
    assert N == 20 * q + r;
    assert 0.05 * (N as real) == (q as real) + (r as real) / 20.0;
  }

  /** The scaled squared distance as a total function of two row indices,
      for the accumulation to be stated independently of the input layout. */
  function DistOf(x: seq<real>, m: nat, rr: seq<real>): (dist: (nat, nat) -> real)
    ensures forall a: nat, b: nat :: Shaped(x, m, rr) && a < m && b < m ==> dist(a, b) == Dist(x, m, rr, a, b)
  {
    (a: nat, b: nat) => if Shaped(x, m, rr) && a < m && b < m then Dist(x, m, rr, a, b) else 0.0
  }

  /** A triplet that the accumulation stores: strictly upper in an m-by-m
      matrix, inside the support (distance below 1), with the kernel value. */
  predicate InSupport(dist: (nat, nat) -> real, kern: real -> real, m: nat, e: Triplet)
  {
    e.row < e.col < m && dist(e.col, e.row) < 1.0 && e.val == kern(dist(e.col, e.row))
  }

  /** Triplets that column j contributes from rows 0..k-1, in loop order. */
  function ColumnSupport(dist: (nat, nat) -> real, kern: real -> real, j: nat, k: nat): seq<Triplet>
  {
    if k == 0 then []
    else
      var c := dist(j, k - 1);
      ColumnSupport(dist, kern, j, k - 1) + (if c < 1.0 then [Triplet(k - 1, j, kern(c))] else [])
  }

  /** Triplets that columns 0..j-1 contribute, in loop order. */
  function Support(dist: (nat, nat) -> real, kern: real -> real, j: nat): seq<Triplet>
  {
    if j == 0 then []
    else Support(dist, kern, j - 1) + ColumnSupport(dist, kern, j - 1, j - 1)
  }

  /** Triplet e lies in column j, above row k, and is one the accumulation stores. */
  predicate InColumnBelow(dist: (nat, nat) -> real, kern: real -> real, m: nat, j: nat, k: nat, e: Triplet)
  {
    e.col == j && e.row < k && InSupport(dist, kern, m, e)
  }

  predicate RowsAscending(S: seq<Triplet>)
  {
    forall a, b :: 0 <= a < b < |S| ==> S[a].row < S[b].row
  }

  /** Position (k, c) is among the triplets T. */
  predicate Stores(T: seq<Triplet>, k: nat, c: nat)
  {
    exists t :: 0 <= t < |T| && T[t].row == k && T[t].col == c
  }

  /** Every triplet column j contributes from rows below k lies in column j,
      above row k, inside the support and carries its kernel value. */
  lemma {:induction false} ColumnSupportSound(dist: (nat, nat) -> real, kern: real -> real, m: nat, j: nat, k: nat)
    requires k <= j < m
    ensures forall e :: e in ColumnSupport(dist, kern, j, k) ==> InColumnBelow(dist, kern, m, j, k, e)
  {
    if k > 0 {
      ColumnSupportSound(dist, kern, m, j, k - 1);
    }
  }

  /** Within a column the triplets come in increasing row order. */
  lemma {:induction false} ColumnSupportSorted(dist: (nat, nat) -> real, kern: real -> real, m: nat, j: nat, k: nat)
    requires k <= j < m
    ensures RowsAscending(ColumnSupport(dist, kern, j, k))
  {
    if k > 0 {
      ColumnSupportSorted(dist, kern, m, j, k - 1);
      ColumnSupportSound(dist, kern, m, j, k - 1);
      var P := ColumnSupport(dist, kern, j, k - 1);
      var c := dist(j, k - 1);
      if c < 1.0 {
        var S := P + [Triplet(k - 1, j, kern(c))];
        assert ColumnSupport(dist, kern, j, k) == S;
        forall a, b | 0 <= a < b < |S|
          ensures S[a].row < S[b].row
        {
          if b < |P| {
            assert S[a] == P[a] && S[b] == P[b];
          } else {
            assert S[a] == P[a] && P[a] in P;
          }
        }
      }
    }
  }

  /** Every row r below k whose distance to row j is below 1 is stored for column j. */
  lemma {:induction false} ColumnSupportComplete(dist: (nat, nat) -> real, kern: real -> real, j: nat, k: nat, r: nat)
    requires r < k && dist(j, r) < 1.0
    ensures Stores(ColumnSupport(dist, kern, j, k), r, j)
  {
    var P := ColumnSupport(dist, kern, j, k - 1);
    var S := ColumnSupport(dist, kern, j, k);
    if r < k - 1 {
      ColumnSupportComplete(dist, kern, j, k - 1, r);
      var t :| 0 <= t < |P| && P[t].row == r && P[t].col == j;
      assert S[t] == P[t];
    } else {
      assert S[|P|].row == r && S[|P|].col == j;
    }
  }

  /** The triplets stored for columns 0..j-1 lie in those columns, inside
      the support, with their kernel values. */
  lemma {:induction false} SupportSound(dist: (nat, nat) -> real, kern: real -> real, m: nat, j: nat)
    requires j <= m
    ensures forall e :: e in Support(dist, kern, j) ==> e.col < j && InSupport(dist, kern, m, e)
  {
    if j > 0 {
      SupportSound(dist, kern, m, j - 1);
      ColumnSupportSound(dist, kern, m, j - 1, j - 1);
    }
  }

  /** Appending one column's ascending triplets after ordered triplets of
      earlier columns keeps the list ordered. */
  lemma OrderedAppend(P: seq<Triplet>, S: seq<Triplet>, m: nat, j: nat)
    requires Ordered(P, m) && InColumns(P, j)
    requires StrictUpper(S, m) && RowsAscending(S)
    requires forall t :: 0 <= t < |S| ==> S[t].col == j
    ensures Ordered(P + S, m)
  {
    var T := P + S;
    forall a, b | 0 <= a < b < |T|
      ensures Before(T[a], T[b])
    {
      if b < |P| {
        assert T[a] == P[a] && T[b] == P[b];
      } else if a < |P| {
        assert T[a] == P[a] && T[b] == S[b - |P|];
      } else {
        assert T[a] == S[a - |P|] && T[b] == S[b - |P|];
      }
    }
  }

  /** The triplets of columns 0..j-1 lie in those columns. */
  lemma SupportInColumns(dist: (nat, nat) -> real, kern: real -> real, m: nat, j: nat)
    requires j <= m
    ensures InColumns(Support(dist, kern, j), j)
  {
    SupportSound(dist, kern, m, j);
    var P := Support(dist, kern, j);
    forall t | 0 <= t < |P|
      ensures P[t].col < j
    {
      assert P[t] in P;
    }
  }

  /** The triplets of column j lie in column j, strictly above the diagonal,
      in increasing row order. */
  lemma ColumnSupportUpper(dist: (nat, nat) -> real, kern: real -> real, m: nat, j: nat)
    requires j < m
    ensures StrictUpper(ColumnSupport(dist, kern, j, j), m)
    ensures forall t :: 0 <= t < |ColumnSupport(dist, kern, j, j)| ==> ColumnSupport(dist, kern, j, j)[t].col == j
    ensures RowsAscending(ColumnSupport(dist, kern, j, j))
  {
    ColumnSupportSound(dist, kern, m, j, j);
    ColumnSupportSorted(dist, kern, m, j, j);
    var S := ColumnSupport(dist, kern, j, j);
    forall t | 0 <= t < |S|
      ensures S[t].row < S[t].col == j < m
    {
      assert S[t] in S;
    }
  }

  /** The triplets come in column-major order of their positions. */
  lemma {:induction false} SupportOrdered(dist: (nat, nat) -> real, kern: real -> real, m: nat, j: nat)
    requires j <= m
    ensures Ordered(Support(dist, kern, j), m)
  {
    if j > 0 {
      SupportOrdered(dist, kern, m, j - 1);
      SupportInColumns(dist, kern, m, j - 1);
      ColumnSupportUpper(dist, kern, m, j - 1);
      OrderedAppend(Support(dist, kern, j - 1), ColumnSupport(dist, kern, j - 1, j - 1), m, j - 1);
    }
  }

  /** Every strictly upper pair of columns 0..j-1 inside the support is stored. */
  lemma {:induction false} SupportComplete(dist: (nat, nat) -> real, kern: real -> real, j: nat, k: nat, c: nat)
    requires k < c < j && dist(c, k) < 1.0
    ensures Stores(Support(dist, kern, j), k, c)
  {
    var P := Support(dist, kern, j - 1);
    var S := ColumnSupport(dist, kern, j - 1, j - 1);
    var T := Support(dist, kern, j);
    assert T == P + S;
    if c < j - 1 {
      SupportComplete(dist, kern, j - 1, k, c);
      var t :| 0 <= t < |P| && P[t].row == k && P[t].col == c;
      assert T[t] == P[t];
    } else {
      ColumnSupportComplete(dist, kern, j - 1, j - 1, k);
      var t :| 0 <= t < |S| && S[t].row == k && S[t].col == c;
      assert T[|P| + t] == S[t];
    }
  }

  /** The positions (k, j) of column j, with k below K, whose rows are at
      distance below 1. */
  ghost function CloseRows(dist: (nat, nat) -> real, j: nat, K: nat): set<(nat, nat)>
  {
    set k: nat | k < K && dist(j, k) < 1.0 :: (k, j)
  }

  /** The strictly upper positions (k, c) of the first j columns whose rows
      are at distance below 1. */
  ghost function ClosePairs(dist: (nat, nat) -> real, j: nat): set<(nat, nat)>
  {
    set c: nat, k: nat | k < c < j && dist(c, k) < 1.0 :: (k, c)
  }

  /** Column j contributes one triplet per close row below K. */
  lemma {:induction false} ColumnSupportCount(dist: (nat, nat) -> real, kern: real -> real, j: nat, K: nat)
    ensures |ColumnSupport(dist, kern, j, K)| == |CloseRows(dist, j, K)|
  {
    if K > 0 {
      ColumnSupportCount(dist, kern, j, K - 1);
      var A := CloseRows(dist, j, K - 1);
      assert (K - 1, j) !in A;
      if dist(j, K - 1) < 1.0 {
        assert CloseRows(dist, j, K) == A + {(K - 1, j)};
      } else {
        assert CloseRows(dist, j, K) == A;
      }
    }
  }

  /** The close pairs of the first j columns are those of the first j - 1
      plus the close rows of column j - 1, two disjoint parts. */
  lemma ClosePairsStep(dist: (nat, nat) -> real, j: nat)
    requires j > 0
    ensures |ClosePairs(dist, j)| == |ClosePairs(dist, j - 1)| + |CloseRows(dist, j - 1, j - 1)|
  {
    var A, B := ClosePairs(dist, j - 1), CloseRows(dist, j - 1, j - 1);
    forall p | p in ClosePairs(dist, j)
      ensures p in A + B
    {
      var c: nat, k: nat :| k < c < j && dist(c, k) < 1.0 && p == (k, c);
      if c < j - 1 {
        assert p in A;
      } else {
        assert p in B;
      }
    }
    forall p | p in A + B
      ensures p in ClosePairs(dist, j)
    {
      if p in A {
        var c: nat, k: nat :| k < c < j - 1 && dist(c, k) < 1.0 && p == (k, c);
      } else {
        var k: nat :| k < j - 1 && dist(j - 1, k) < 1.0 && p == (k, j - 1);
      }
    }
    forall p | p in A
      ensures p !in B
    {
      var c: nat, k: nat :| k < c < j - 1 && dist(c, k) < 1.0 && p == (k, c);
    }
    assert ClosePairs(dist, j) == A + B;
    DisjointUnion(A, B);
  }

  lemma DisjointUnion<T>(A: set<T>, B: set<T>)
    requires A * B == {}
    ensures |A + B| == |A| + |B|
  {
  }

  /** The accumulation stores one triplet per strictly upper pair of rows
      at distance below 1: `ind` counts exactly those pairs. */
  lemma {:induction false} SupportCount(dist: (nat, nat) -> real, kern: real -> real, j: nat)
    ensures |Support(dist, kern, j)| == |ClosePairs(dist, j)|
  {
    if j > 0 {
      var P, S := Support(dist, kern, j - 1), ColumnSupport(dist, kern, j - 1, j - 1);
      assert |Support(dist, kern, j)| == |P| + |S|;
      SupportCount(dist, kern, j - 1);
      ColumnSupportCount(dist, kern, j - 1, j - 1);
      ClosePairsStep(dist, j);
    }
  }

  /** The accumulated triplets of the whole m-by-m matrix: ordered, each
      inside the support with its kernel value, and exactly the strictly
      upper pairs inside the support. */
  lemma SupportExact(dist: (nat, nat) -> real, kern: real -> real, m: nat)
    ensures Ordered(Support(dist, kern, m), m)
    ensures forall e :: e in Support(dist, kern, m) ==> InSupport(dist, kern, m, e)
    ensures forall k, c :: 0 <= k < c < m ==> (dist(c, k) < 1.0 <==> Stores(Support(dist, kern, m), k, c))
  {
    SupportOrdered(dist, kern, m, m);
    SupportSound(dist, kern, m, m);
    var T := Support(dist, kern, m);
    forall k, c | 0 <= k < c < m
      ensures dist(c, k) < 1.0 <==> Stores(T, k, c)
    {
      if dist(c, k) < 1.0 {
        SupportComplete(dist, kern, m, k, c);
      }
    }
  }

  /** The distance the accumulation computes for position (r, c) of the
      symmetric matrix: always from the later row to the earlier one. */
  function PairDist(dist: (nat, nat) -> real, r: nat, c: nat): real
  {
    if r < c then dist(c, r) else dist(r, c)
  }

  /** Off the diagonal, the assembled compact-support matrix holds row r of
      column c exactly when the pair is inside the support, with the kernel
      value of its distance; elsewhere it is structurally zero. */
  lemma SupportColumns(dist: (nat, nat) -> real, kern: real -> real, m: nat, ms: real, r: nat, c: nat)
    requires r < m && c < m && r != c
    ensures Present(Column(Support(dist, kern, m), c, ms), r) <==> PairDist(dist, r, c) < 1.0
    ensures Lookup(Column(Support(dist, kern, m), c, ms), r)
         == if PairDist(dist, r, c) < 1.0 then kern(PairDist(dist, r, c)) else 0.0
  {
    var T := Support(dist, kern, m);
    SupportExact(dist, kern, m);
    ColumnAt(T, m, ms, r, c);
    var lo, hi := if r < c then r else c, if r < c then c else r;
    assert forall t :: 0 <= t < |T| ==> (Covers(T[t], r, c) <==> T[t].row == lo && T[t].col == hi) by {
      forall t | 0 <= t < |T|
        ensures Covers(T[t], r, c) <==> T[t].row == lo && T[t].col == hi
      {
        assert T[t] in T;
      }
    }
    if PairDist(dist, r, c) < 1.0 {
      assert Stores(T, lo, hi);
      var t :| 0 <= t < |T| && T[t].row == lo && T[t].col == hi;
      assert T[t] in T;
    }
  }

  /** `rr2[i] = (lr > 1) ? l[i]*l[i] : l[0]*l[0]` for every dimension. */
  method SquaredScales(l: array<real>, n: nat) returns (rr2: array<real>)
    requires LengthScalesOk(l[..], n)
    ensures rr2[..] == Weights(l[..], n)
  {
    rr2 := new real[n];
    var i := 0;
    while i < n
      invariant i <= n
      invariant forall k :: 0 <= k < i ==> rr2[k] == LengthScaleSq(l[..], k)
    {
      rr2[i] := if l.Length > 1 then Sq(l[i]) else Sq(l[0]);
      i := i + 1;
    }
  }

  /** The three parallel buffers hold the triplets T in their first |T| slots. */
  ghost predicate Stored(It: seq<nat>, Jt: seq<nat>, Ct: seq<real>, T: seq<Triplet>)
  {
    |T| <= |It| && |T| <= |Jt| && |T| <= |Ct| &&
    forall t :: 0 <= t < |T| ==> It[t] == T[t].row && Jt[t] == T[t].col && Ct[t] == T[t].val
  }

  /** `mxRealloc(a, size)`: a fresh buffer of the new size that keeps the old
      contents as far as both sizes reach. */
  method Realloc<T(0)>(a: array<T>, size: nat) returns (b: array<T>)
    ensures fresh(b) && b.Length == size
    ensures forall i :: 0 <= i < a.Length && i < size ==> b[i] == a[i]
  {
    b := new T[size];
    var i := 0;
    while i < a.Length && i < size
      invariant 0 <= i <= size && i <= a.Length
      invariant forall k :: 0 <= k < i ==> b[k] == a[k]
    {
      b[i] := a[i];
      i := i + 1;
    }
  }

  /** Storing one triplet at slot `ind` (`It[ind] = k; Jt[ind] = j;
      Ct[ind] = d`), after doubling all three buffers exactly when they are full. */
  method Store(It: array<nat>, Jt: array<nat>, Ct: array<real>, ind: nat, k: nat, j: nat, d: real,
               ghost T: seq<Triplet>)
    returns (It': array<nat>, Jt': array<nat>, Ct': array<real>)
    requires It.Length == Jt.Length == Ct.Length >= 1 && It != Jt
    requires ind == |T| <= It.Length && Stored(It[..], Jt[..], Ct[..], T)
    modifies It, Jt, Ct
    ensures It'.Length == Jt'.Length == Ct'.Length && It' != Jt'
    ensures It'.Length == if ind == It.Length then 2 * It.Length else It.Length
    ensures ind < It'.Length
    ensures (It' == It && Jt' == Jt && Ct' == Ct) || (fresh(It') && fresh(Jt') && fresh(Ct'))
    ensures Stored(It'[..], Jt'[..], Ct'[..], T + [Triplet(k, j, d)])
  {
    It', Jt', Ct' := It, Jt, Ct;
    if ind == It.Length {
      var nnz := 2 * It.Length;
      It' := Realloc(It, nnz);
      Jt' := Realloc(Jt, nnz);
      Ct' := Realloc(Ct, nnz);
    }
    It'[ind] := k;
    Jt'[ind] := j;
    Ct'[ind] := d;
  }

  /** The buffers are never more than twice as large as needed: they keep
      their initial capacity or were last doubled when full. */
  predicate CapacityOk(cap: nat, init: nat, ind: nat)
  {
    1 <= cap && ind <= cap && (cap == init || cap < 2 * ind)
  }

  /** The state of the three buffers while collecting: equal capacities
      within the doubling bound, and the triplets T in their first `ind`
      slots. */
  ghost predicate Buffered(It: array<nat>, Jt: array<nat>, Ct: array<real>, ind: nat, init: nat, T: seq<Triplet>)
    reads It, Jt, Ct
  {
    It.Length == Jt.Length == Ct.Length && It != Jt
    && ind == |T| && CapacityOk(It.Length, init, ind) && Stored(It[..], Jt[..], Ct[..], T)
  }

  /** One pass of the inner loop (`for k != j`): appends the triplets of
      column j to the buffers, growing them as needed. */
  method CollectColumn(x: array<real>, m: nat, rr2: array<real>, kern: real -> real, j: nat,
                       It: array<nat>, Jt: array<nat>, Ct: array<real>, ind: nat, ghost init: nat, ghost T: seq<Triplet>)
    returns (It': array<nat>, Jt': array<nat>, Ct': array<real>, ind': nat)
    requires Shaped(x[..], m, rr2[..]) && j < m && Ct != x && Ct != rr2
    requires Buffered(It, Jt, Ct, ind, init, T)
    modifies It, Jt, Ct
    ensures Ct' != x && Ct' != rr2
    ensures (It' == It || fresh(It')) && (Jt' == Jt || fresh(Jt')) && (Ct' == Ct || fresh(Ct'))
    ensures Buffered(It', Jt', Ct', ind', init, T + ColumnSupport(DistOf(x[..], m, rr2[..]), kern, j, j))
  {
    ghost var dist := DistOf(x[..], m, rr2[..]);
    It', Jt', Ct', ind' := It, Jt, Ct, ind;
    ghost var T' := T;
    var k := 0;
    while k != j
      invariant k <= j
      invariant Ct' != x && Ct' != rr2
      invariant (It' == It || fresh(It')) && (Jt' == Jt || fresh(Jt')) && (Ct' == Ct || fresh(Ct'))
      invariant T' == T + ColumnSupport(dist, kern, j, k)
      invariant Buffered(It', Jt', Ct', ind', init, T')
    {
      var c := ScaledSqDist(x, m, rr2, j, k);
      assert c == dist(j, k);
      if c < 1.0 {
        It', Jt', Ct' := Store(It', Jt', Ct', ind', k, j, kern(c), T');
        T' := T' + [Triplet(k, j, kern(c))];
        ind' := ind' + 1;
      }
      k := k + 1;
    }
  }

  /** The accumulation loops over all columns (`for j < m`). */
  method CollectAll(x: array<real>, m: nat, rr2: array<real>, kern: real -> real)
    returns (It: array<nat>, Jt: array<nat>, Ct: array<real>, ind: nat, ghost T: seq<Triplet>)
    requires Shaped(x[..], m, rr2[..])
    ensures T == Support(DistOf(x[..], m, rr2[..]), kern, m)
    ensures Buffered(It, Jt, Ct, ind, InitialCapacity(m), T)
  {
    ghost var dist := DistOf(x[..], m, rr2[..]);
    var nnz := InitialCapacity(m);
    It := new nat[nnz];
    Jt := new nat[nnz];
    Ct := new real[nnz];
    ind := 0;
    T := [];
    var j := 0;
    while j < m
      invariant j <= m
      invariant fresh(It) && fresh(Jt) && fresh(Ct)
      invariant T == Support(dist, kern, j)
      invariant Buffered(It, Jt, Ct, ind, nnz, T)
    {
      It, Jt, Ct, ind := CollectColumn(x, m, rr2, kern, j, It, Jt, Ct, ind, nnz, T);
      T := T + ColumnSupport(dist, kern, j, j);
      j := j + 1;
    }
  }

  /** The final `mxRealloc` of the three buffers to `ind` elements. */
  method Trim(It: array<nat>, Jt: array<nat>, Ct: array<real>, ind: nat, ghost T: seq<Triplet>)
    returns (It': array<nat>, Jt': array<nat>, Ct': array<real>)
    requires ind == |T| && Stored(It[..], Jt[..], Ct[..], T)
    ensures It'.Length == Jt'.Length == Ct'.Length == ind
    ensures Triplets(It'[..], Jt'[..], Ct'[..]) == T
  {
    It' := Realloc(It, ind);
    Jt' := Realloc(Jt, ind);
    Ct' := Realloc(Ct, ind);
    assert Triplets(It'[..], Jt'[..], Ct'[..]) == T;
  }

  /** The accumulation followed by the trim. `kern` is the kernel value as
      a function of the scaled squared distance. */
  method CollectTriplets(x: array<real>, m: nat, rr2: array<real>, kern: real -> real)
    returns (It: array<nat>, Jt: array<nat>, Ct: array<real>)
    requires Shaped(x[..], m, rr2[..])
    ensures It.Length == Jt.Length == Ct.Length
    ensures Triplets(It[..], Jt[..], Ct[..]) == Support(DistOf(x[..], m, rr2[..]), kern, m)
  {
    var ind;
    ghost var T;
    It, Jt, Ct, ind, T := CollectAll(x, m, rr2, kern);
    It, Jt, Ct := Trim(It, Jt, Ct, ind, T);
  }
}
