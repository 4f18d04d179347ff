/** The second phase of a compact-support kernel: turning the ordered
    strict-upper triplets into a symmetric compressed-column matrix. Row
    counts and column counts give each column's degree; `cumsum2` turns the
    column counts into the start of each column's triplets (`Jc`) and the
    degrees into the final column starts (`J`); three cursor-driven passes
    then write the upper rows, the diagonal and the mirrored lower rows. */
module Sparse {
  import opened PrefixSum
  import opened Coo

  /** The elements es sit in I and C from slot `start` on. */
  ghost predicate Holds(I: seq<nat>, C: seq<real>, start: nat, es: seq<Entry>)
  {
    start + |es| <= |I| && start + |es| <= |C| &&
    forall p :: 0 <= p < |es| ==> I[start + p] == es[p].row && C[start + p] == es[p].val
  }

  /** The compressed-column arrays while they are being filled: column c
      owns slots J[c]..J[c+1]-1, J being the prefix sums of the degrees D,
      and the first |Es[c]| of those slots hold Es[c]. */
  ghost predicate Layout(I: seq<nat>, C: seq<real>, J: seq<nat>, D: seq<nat>, Es: seq<seq<Entry>>)
  {
    |Es| == |D| && J == PrefixSums(D) && J[|D|] <= |I| && J[|D|] <= |C| &&
    forall c :: 0 <= c < |D| ==> |Es[c]| <= D[c] && Holds(I, C, J[c], Es[c])
  }

  /** Writing through the cursor of a column that is not yet full appends to
      that column and disturbs no other column: cursors never run past
      their column's end. */
  lemma LayoutWrite(I: seq<nat>, C: seq<real>, J: seq<nat>, D: seq<nat>, Es: seq<seq<Entry>>, j: nat, e: Entry)
    requires Layout(I, C, J, D, Es) && j < |D| && |Es[j]| < D[j]
    ensures J[j] + |Es[j]| < J[j + 1] <= J[|D|]
    ensures Layout(I[J[j] + |Es[j]| := e.row], C[J[j] + |Es[j]| := e.val], J, D, Es[j := Es[j] + [e]])
  {
    PrefixSumsMonotone(D, j, j + 1);
    PrefixSumsMonotone(D, j + 1, |D|);
    var i := J[j] + |Es[j]|;
    var I', C', Es' := I[i := e.row], C[i := e.val], Es[j := Es[j] + [e]];
    forall c | 0 <= c < |D|
      ensures |Es'[c]| <= D[c] && Holds(I', C', J[c], Es'[c])
    {
      WriteColumn(I, C, J, D, Es[c], j, c, e, i);
    }
  }

  /** The write through column j's cursor, at slot i of column j's range,
      appends to column j when i is its cursor, and leaves any other column
      c as it was. */
  lemma WriteColumn(I: seq<nat>, C: seq<real>, J: seq<nat>, D: seq<nat>, es: seq<Entry>, j: nat, c: nat, e: Entry, i: nat)
    requires J == PrefixSums(D) && J[|D|] <= |I| && J[|D|] <= |C|
    requires j < |D| && c < |D| && |es| <= D[c] && Holds(I, C, J[c], es)
    requires J[j] <= i < J[j] + D[j] && (c == j ==> i == J[c] + |es|)
    ensures i < |I| && i < |C|
    ensures Holds(I[i := e.row], C[i := e.val], J[c], if c == j then es + [e] else es)
  {
    PrefixSumsMonotone(D, j, j + 1);
    PrefixSumsMonotone(D, j + 1, |D|);
    if c == j {
      HoldsAppend(I, C, J[c], es, e);
    } else {
      if c < j {
        PrefixSumsMonotone(D, c, j);
      } else {
        PrefixSumsMonotone(D, j, c);
      }
      HoldsOther(I, C, J[c], es, i, e.row, e.val);
    }
  }

  /** Writing one slot past a column's filled part extends it by one entry. */
  lemma HoldsAppend(I: seq<nat>, C: seq<real>, start: nat, es: seq<Entry>, e: Entry)
    requires Holds(I, C, start, es) && start + |es| < |I| && start + |es| < |C|
    ensures Holds(I[start + |es| := e.row], C[start + |es| := e.val], start, es + [e])
  {
  }

  /** Writing a slot outside a column's filled part leaves that part intact. */
  lemma HoldsOther(I: seq<nat>, C: seq<real>, start: nat, es: seq<Entry>, i: nat, r: nat, v: real)
    requires Holds(I, C, start, es) && i < |I| && i < |C| && (i < start || start + |es| <= i)
    ensures Holds(I[i := r], C[i := v], start, es)
  {
  }

  /** Column contents after the upper pass has handled the triplets T[..k]. */
  ghost function UpperCols(T: seq<Triplet>, k: nat, m: nat): (Es: seq<seq<Entry>>)
    requires k <= |T|
    ensures |Es| == m && forall c :: 0 <= c < m ==> Es[c] == Upper(T[..k], c)
  {
    seq(m, c requires 0 <= c < m => Upper(T[..k], c))
  }

  /** Column contents after the diagonal pass has handled columns 0..j-1. */
  ghost function DiagCols(T: seq<Triplet>, j: nat, m: nat, ms: real): (Es: seq<seq<Entry>>)
    ensures |Es| == m
    ensures forall c :: 0 <= c < m ==> Es[c] == if c < j then Upper(T, c) + [Entry(c, ms)] else Upper(T, c)
  {
    seq(m, c requires 0 <= c < m => if c < j then Upper(T, c) + [Entry(c, ms)] else Upper(T, c))
  }

  /** Column contents after the lower pass has handled the triplets T[..k]. */
  ghost function LowerCols(T: seq<Triplet>, k: nat, m: nat, ms: real): (Es: seq<seq<Entry>>)
    requires k <= |T|
    ensures |Es| == m && forall c :: 0 <= c < m ==> Es[c] == Upper(T, c) + [Entry(c, ms)] + Lower(T[..k], c)
  {
    seq(m, c requires 0 <= c < m => Upper(T, c) + [Entry(c, ms)] + Lower(T[..k], c))
  }

  /** The triplets whose rows and values the arrays It and Ct hold. */
  ghost predicate Describes(It: seq<nat>, Ct: seq<real>, T: seq<Triplet>)
  {
    |It| == |T| && |Ct| == |T| && forall t :: 0 <= t < |T| ==> It[t] == T[t].row && Ct[t] == T[t].val
  }

  /** `for (k=0;k<ind;k++) w[It[k]]++`: the row counts of the upper
      triangle, which are the sizes of the mirrored lower parts. */
  method CountRows(It: array<nat>, m: nat, ghost T: seq<Triplet>) returns (w: array<nat>)
    requires |T| == It.Length && forall t :: 0 <= t < |T| ==> It[t] == T[t].row < m
    ensures fresh(w) && w[..] == RowCounts(T, m)
  {
    w := new nat[m](_ => 0);
    var k := 0;
    while k < It.Length
      invariant k <= It.Length && w.Length == m
      invariant forall c :: 0 <= c < m ==> w[c] == |Lower(T[..k], c)|
    {
      forall c | 0 <= c < m
        ensures |Lower(T[..k + 1], c)| == |Lower(T[..k], c)| + (if T[k].row == c then 1 else 0)
      {
        LowerStep(T, k, c);
      }
      w[It[k]] := w[It[k]] + 1;
      k := k + 1;
    }
    assert T[..|T|] == T;
  }

  /** `for (k=0;k<ind;k++) w2[Jt[k]]++`: the column counts of the upper
      triangle. */
  method CountCols(Jt: array<nat>, m: nat, ghost T: seq<Triplet>) returns (w2: array<nat>)
    requires |T| == Jt.Length && forall t :: 0 <= t < |T| ==> Jt[t] == T[t].col < m
    ensures fresh(w2) && w2[..] == ColCounts(T, m)
  {
    w2 := new nat[m](_ => 0);
    var k := 0;
    while k < Jt.Length
      invariant k <= Jt.Length && w2.Length == m
      invariant forall c :: 0 <= c < m ==> w2[c] == |Upper(T[..k], c)|
    {
      forall c | 0 <= c < m
        ensures |Upper(T[..k + 1], c)| == |Upper(T[..k], c)| + (if T[k].col == c then 1 else 0)
      {
        UpperStep(T, k, c);
      }
      w2[Jt[k]] := w2[Jt[k]] + 1;
      k := k + 1;
    }
    assert T[..|T|] == T;
  }

  /** The counting loops: `w[It[k]]++` (row counts), `w2[Jt[k]]++` (column
      counts), then `w[k] += w2[k] + 1` (the degree of each column). */
  method CountDegrees(It: array<nat>, Jt: array<nat>, Ct: array<real>, m: nat) returns (w: array<nat>, w2: array<nat>)
    requires It.Length == Jt.Length == Ct.Length
    requires StrictUpper(Triplets(It[..], Jt[..], Ct[..]), m)
    ensures fresh(w) && fresh(w2) && w != w2
    ensures w[..] == Degrees(Triplets(It[..], Jt[..], Ct[..]), m)
    ensures w2[..] == ColCounts(Triplets(It[..], Jt[..], Ct[..]), m)
  {
    ghost var T := Triplets(It[..], Jt[..], Ct[..]);
    w := CountRows(It, m, T);
    w2 := CountCols(Jt, m, T);
    var k := 0;
    while k < m
      invariant k <= m && w.Length == m && w2[..] == ColCounts(T, m)
      invariant forall c :: 0 <= c < k ==> w[c] == |Lower(T, c)| + |Upper(T, c)| + 1
      invariant forall c :: k <= c < m ==> w[c] == |Lower(T, c)|
    {
      w[k] := w[k] + w2[k] + 1;
      k := k + 1;
    }
  }

  /** The fill state: the column layout, and each cursor w[c] at the first
      free slot of its column. */
  ghost predicate Cursors(I: seq<nat>, C: seq<real>, J: seq<nat>, D: seq<nat>, Es: seq<seq<Entry>>, w: seq<nat>)
  {
    Layout(I, C, J, D, Es) && |w| == |D| && forall c :: 0 <= c < |D| ==> w[c] == J[c] + |Es[c]|
  }

  /** One cursor write `I[i = w[c]++] = e.row; C[i] = e.val`: appends e to
      column c, which must not be full yet. */
  method Put(I: array<nat>, C: array<real>, w: array<nat>, c: nat, e: Entry,
             ghost J: seq<nat>, ghost D: seq<nat>, ghost Es: seq<seq<Entry>>)
    requires I != w && Cursors(I[..], C[..], J, D, Es, w[..])
    requires c < |D| && |Es[c]| < D[c]
    modifies I, C, w
    ensures Cursors(I[..], C[..], J, D, Es[c := Es[c] + [e]], w[..])
  {
    var i := w[c];
    LayoutWrite(I[..], C[..], J, D, Es, c, e);
    I[i] := e.row;
    C[i] := e.val;
    w[c] := i + 1;
    assert I[..] == old(I[..])[i := e.row];
    assert C[..] == old(C[..])[i := e.val];
  }

  /** Requirements shared by the fill passes: It and Ct hold the triplets,
      Jc has one entry per column and one more, and no array written
      aliases one that is read. */
  ghost predicate FillFrame(It: array<nat>, Ct: array<real>, Jc: array<nat>,
                            I: array<nat>, C: array<real>, w: array<nat>, m: nat, T: seq<Triplet>)
    reads It, Ct
  {
    && Describes(It[..], Ct[..], T)
    && Jc.Length == m + 1 && w.Length == m
    && I != w && I != Jc && I != It && w != Jc && w != It && C != Ct
  }

  /** T[lo..hi) are strictly upper triplets of column j. */
  ghost predicate ColumnSlice(T: seq<Triplet>, lo: nat, hi: nat, j: nat)
  {
    lo <= hi <= |T| && forall k :: lo <= k < hi ==> T[k].row < T[k].col == j
  }

  /** `Jc[j]..Jc[j+1]-1` is the slice of column j's triplets. */
  lemma ColumnSliceOf(T: seq<Triplet>, m: nat, j: nat)
    requires Ordered(T, m) && j < m
    ensures var P := PrefixSums(ColCounts(T, m)); ColumnSlice(T, P[j], P[j + 1], j)
  {
    var S := ColCounts(T, m);
    var P := PrefixSums(S);
    UpperStartsTotal(T, m);
    PrefixSumsMonotone(S, j, j + 1);
    PrefixSumsMonotone(S, j + 1, m);
    forall k | P[j] <= k < P[j + 1]
      ensures T[k].row < T[k].col == j
    {
      ColumnBlock(T, m, j, k);
    }
  }

  lemma UpperColsStep(T: seq<Triplet>, k: nat, m: nat)
    requires k < |T| && T[k].col < m
    ensures var Es := UpperCols(T, k, m); var j := T[k].col;
      Es[j := Es[j] + [Entry(T[k].row, T[k].val)]] == UpperCols(T, k + 1, m)
  {
    var Es := UpperCols(T, k, m);
    var j := T[k].col;
    var Es' := Es[j := Es[j] + [Entry(T[k].row, T[k].val)]];
    forall c | 0 <= c < m
      ensures Es'[c] == UpperCols(T, k + 1, m)[c]
    {
      UpperStep(T, k, c);
    }
  }

  lemma LowerColsStep(T: seq<Triplet>, k: nat, m: nat, ms: real)
    requires k < |T| && T[k].row < m
    ensures var Es := LowerCols(T, k, m, ms); var r := T[k].row;
      Es[r := Es[r] + [Entry(T[k].col, T[k].val)]] == LowerCols(T, k + 1, m, ms)
  {
    var Es := LowerCols(T, k, m, ms);
    var r := T[k].row;
    var Es' := Es[r := Es[r] + [Entry(T[k].col, T[k].val)]];
    forall c | 0 <= c < m
      ensures Es'[c] == LowerCols(T, k + 1, m, ms)[c]
    {
      LowerStep(T, k, c);
    }
  }

  /** Column T[k].col has room for the upper write of triplet k, and the
      write moves the upper pass from T[..k] to T[..k+1]. */
  lemma UpperReady(T: seq<Triplet>, k: nat, m: nat)
    requires k < |T| && T[k].col < m
    ensures var Es := UpperCols(T, k, m); var j := T[k].col;
      |Es[j]| < Degrees(T, m)[j] && Es[j := Es[j] + [Entry(T[k].row, T[k].val)]] == UpperCols(T, k + 1, m)
  {
    UpperStep(T, k, T[k].col);
    UpperPrefixLength(T, k + 1, T[k].col);
    UpperColsStep(T, k, m);
  }

  /** Column T[k].row has room for the mirrored write of triplet k, and
      the write moves the lower pass from T[..k] to T[..k+1]. */
  lemma LowerReady(T: seq<Triplet>, k: nat, m: nat, ms: real)
    requires k < |T| && T[k].row < m
    ensures var Es := LowerCols(T, k, m, ms); var r := T[k].row;
      |Es[r]| < Degrees(T, m)[r] && Es[r := Es[r] + [Entry(T[k].col, T[k].val)]] == LowerCols(T, k + 1, m, ms)
  {
    LowerStep(T, k, T[k].row);
    LowerPrefixLength(T, k + 1, T[k].row);
    LowerColsStep(T, k, m, ms);
  }

  /** The upper pass over column j: its triplets `Jc[j]..Jc[j+1]-1` are
      written at the column's cursor, `I[w[j]++] = It[k]`. */
  method FillUpperColumn(It: array<nat>, Ct: array<real>, Jc: array<nat>, ghost J: seq<nat>,
                         I: array<nat>, C: array<real>, w: array<nat>, m: nat, j: nat, ghost T: seq<Triplet>)
    requires FillFrame(It, Ct, Jc, I, C, w, m, T) && j < m
    requires ColumnSlice(T, Jc[j], Jc[j + 1], j)
    requires Cursors(I[..], C[..], J, Degrees(T, m), UpperCols(T, Jc[j], m), w[..])
    modifies I, C, w
    ensures Cursors(I[..], C[..], J, Degrees(T, m), UpperCols(T, Jc[j + 1], m), w[..])
  {
    ghost var D := Degrees(T, m);
    var k := Jc[j];
    while k != Jc[j + 1]
      invariant Jc[j] <= k <= Jc[j + 1] && Describes(It[..], Ct[..], T)
      invariant Cursors(I[..], C[..], J, D, UpperCols(T, k, m), w[..])
      decreases Jc[j + 1] - k
    {
      var e := Entry(It[k], Ct[k]);
      assert T[k].col == j && e == Entry(T[k].row, T[k].val);
      UpperReady(T, k, m);
      Put(I, C, w, j, e, J, D, UpperCols(T, k, m));
      k := k + 1;
    }
  }

  /** Upper pass: every column in turn, `for (j = 0; j < m; j++)`. */
  method FillUpper(It: array<nat>, Ct: array<real>, Jc: array<nat>, ghost J: seq<nat>,
                   I: array<nat>, C: array<real>, w: array<nat>, m: nat, ghost T: seq<Triplet>)
    requires FillFrame(It, Ct, Jc, I, C, w, m, T)
    requires Ordered(T, m) && Jc[..] == PrefixSums(ColCounts(T, m))
    requires Cursors(I[..], C[..], J, Degrees(T, m), UpperCols(T, 0, m), w[..])
    modifies I, C, w
    ensures Cursors(I[..], C[..], J, Degrees(T, m), UpperCols(T, |T|, m), w[..])
  {
    UpperStartsTotal(T, m);
    var j := 0;
    while j < m
      invariant j <= m && Jc[j] <= |T|
      invariant Cursors(I[..], C[..], J, Degrees(T, m), UpperCols(T, Jc[j], m), w[..])
    {
      ColumnSliceOf(T, m, j);
      FillUpperColumn(It, Ct, Jc, J, I, C, w, m, j, T);
      j := j + 1;
    }
  }

  lemma DiagColsStep(T: seq<Triplet>, j: nat, m: nat, ms: real)
    requires j < m
    ensures var Es := DiagCols(T, j, m, ms);
      Es[j := Es[j] + [Entry(j, ms)]] == DiagCols(T, j + 1, m, ms)
  {
  }

  /** Diagonal pass: `I[w[j]++] = j` with value ms, for every column j. */
  method FillDiagonal(I: array<nat>, C: array<real>, w: array<nat>, m: nat, ms: real,
                      ghost J: seq<nat>, ghost T: seq<Triplet>)
    requires I != w
    requires Cursors(I[..], C[..], J, Degrees(T, m), DiagCols(T, 0, m, ms), w[..])
    modifies I, C, w
    ensures Cursors(I[..], C[..], J, Degrees(T, m), DiagCols(T, m, m, ms), w[..])
  {
    ghost var D := Degrees(T, m);
    var j := 0;
    while j < m
      invariant j <= m
      invariant Cursors(I[..], C[..], J, D, DiagCols(T, j, m, ms), w[..])
    {
      DiagColsStep(T, j, m, ms);
      Put(I, C, w, j, Entry(j, ms), J, D, DiagCols(T, j, m, ms));
      j := j + 1;
    }
  }

  /** The lower pass over column j: each of its triplets (k, j) is written
      mirrored, as row j of column k, through column k's cursor:
      `I[w[It[k]]++] = j`. */
  method FillLowerColumn(It: array<nat>, Ct: array<real>, Jc: array<nat>, ghost J: seq<nat>,
                         I: array<nat>, C: array<real>, w: array<nat>, m: nat, ms: real, j: nat, ghost T: seq<Triplet>)
    requires FillFrame(It, Ct, Jc, I, C, w, m, T) && j < m
    requires ColumnSlice(T, Jc[j], Jc[j + 1], j)
    requires Cursors(I[..], C[..], J, Degrees(T, m), LowerCols(T, Jc[j], m, ms), w[..])
    modifies I, C, w
    ensures Cursors(I[..], C[..], J, Degrees(T, m), LowerCols(T, Jc[j + 1], m, ms), w[..])
  {
    ghost var D := Degrees(T, m);
    var k := Jc[j];
    while k != Jc[j + 1]
      invariant Jc[j] <= k <= Jc[j + 1] && Describes(It[..], Ct[..], T)
      invariant Cursors(I[..], C[..], J, D, LowerCols(T, k, m, ms), w[..])
      decreases Jc[j + 1] - k
    {
      var r, e := It[k], Entry(j, Ct[k]);
      assert r == T[k].row < j && e == Entry(T[k].col, T[k].val);
      LowerReady(T, k, m, ms);
      Put(I, C, w, r, e, J, D, LowerCols(T, k, m, ms));
      k := k + 1;
    }
  }

  /** Lower pass: every column in turn, `for (j = 0; j < m; j++)`. */
  method FillLower(It: array<nat>, Ct: array<real>, Jc: array<nat>, ghost J: seq<nat>,
                   I: array<nat>, C: array<real>, w: array<nat>, m: nat, ms: real, ghost T: seq<Triplet>)
    requires FillFrame(It, Ct, Jc, I, C, w, m, T)
    requires Ordered(T, m) && Jc[..] == PrefixSums(ColCounts(T, m))
    requires Cursors(I[..], C[..], J, Degrees(T, m), LowerCols(T, 0, m, ms), w[..])
    modifies I, C, w
    ensures Cursors(I[..], C[..], J, Degrees(T, m), LowerCols(T, |T|, m, ms), w[..])
  {
    UpperStartsTotal(T, m);
    var j := 0;
    while j < m
      invariant j <= m && Jc[j] <= |T|
      invariant Cursors(I[..], C[..], J, Degrees(T, m), LowerCols(T, Jc[j], m, ms), w[..])
    {
      ColumnSliceOf(T, m, j);
      FillLowerColumn(It, Ct, Jc, J, I, C, w, m, ms, j, T);
      j := j + 1;
    }
  }

  /** After the lower pass every column is full, so each cursor stands at
      the start of the next column. */
  lemma CursorsAtEnd(I: seq<nat>, C: seq<real>, J: seq<nat>, T: seq<Triplet>, m: nat, ms: real, w: seq<nat>)
    requires Cursors(I, C, J, Degrees(T, m), LowerCols(T, |T|, m, ms), w)
    ensures forall c :: 0 <= c < m ==> w[c] == J[c + 1]
  {
    assert T[..|T|] == T;
    PrefixSumsShape(Degrees(T, m));
  }

  /** Before the passes every column is empty and its cursor at its start. */
  lemma StartCursors(I: seq<nat>, C: seq<real>, J: seq<nat>, T: seq<Triplet>, m: nat, w: seq<nat>)
    requires J == PrefixSums(Degrees(T, m)) && J[m] <= |I| && J[m] <= |C|
    requires |w| == m && forall c :: 0 <= c < m ==> w[c] == J[c]
    ensures Cursors(I, C, J, Degrees(T, m), UpperCols(T, 0, m), w)
  {
    forall c | 0 <= c < m
      ensures J[c] <= J[m]
    {
      PrefixSumsMonotone(Degrees(T, m), c, m);
    }
  }

  /** Each pass ends in the state the next one starts from. */
  lemma PassesChain(T: seq<Triplet>, m: nat, ms: real)
    ensures UpperCols(T, |T|, m) == DiagCols(T, 0, m, ms)
    ensures DiagCols(T, m, m, ms) == LowerCols(T, 0, m, ms)
    ensures forall c :: 0 <= c < m ==> LowerCols(T, |T|, m, ms)[c] == Column(T, c, ms)
  {
    assert T[..|T|] == T;
    var A, B := DiagCols(T, m, m, ms), LowerCols(T, 0, m, ms);
    forall c | 0 <= c < m
      ensures A[c] == B[c]
    {
      assert Mirror(T[..0]) == [];
      assert Lower(T[..0], c) == [];
    }
  }

  /** The three fill passes, upper, diagonal and lower, run on cursors set
      to the column starts. Afterwards every column is full: each cursor has
      reached the start of the next column. */
  method Fill(It: array<nat>, Ct: array<real>, Jc: array<nat>, J: array<nat>,
              I: array<nat>, C: array<real>, w: array<nat>, m: nat, ms: real, ghost T: seq<Triplet>)
    requires FillFrame(It, Ct, Jc, I, C, w, m, T) && I != J && w != J
    requires Ordered(T, m) && Jc[..] == PrefixSums(ColCounts(T, m))
    requires J[..] == PrefixSums(Degrees(T, m)) && J[m] <= I.Length && J[m] <= C.Length
    requires forall c :: 0 <= c < m ==> w[c] == J[c]
    modifies I, C, w
    ensures forall c :: 0 <= c < m ==> Holds(I[..], C[..], J[c], Column(T, c, ms))
    ensures forall c :: 0 <= c < m ==> w[c] == J[c + 1]
  {
    StartCursors(I[..], C[..], J[..], T, m, w[..]);
    PassesChain(T, m, ms);
    FillUpper(It, Ct, Jc, J[..], I, C, w, m, T);
    FillDiagonal(I, C, w, m, ms, J[..], T);
    FillLower(It, Ct, Jc, J[..], I, C, w, m, ms, T);
    CursorsAtEnd(I[..], C[..], J[..], T, m, ms, w[..]);
  }

  /** Column c of a compressed-column matrix: rows `I[J[c]..J[c+1]-1]`
      with their values in C. */
  function CscColumn(I: seq<nat>, C: seq<real>, J: seq<nat>, c: nat): (es: seq<Entry>)
    requires c + 1 < |J| && J[c] <= J[c + 1] <= |I| && J[c + 1] <= |C|
    ensures |es| == J[c + 1] - J[c]
    ensures forall p :: 0 <= p < |es| ==> es[p] == Entry(I[J[c] + p], C[J[c] + p])
  {
    seq(J[c + 1] - J[c], p requires 0 <= p < J[c + 1] - J[c] => Entry(I[J[c] + p], C[J[c] + p]))
  }

  /** A column's slots filled exactly with es are that column. */
  lemma FullColumn(I: seq<nat>, C: seq<real>, J: seq<nat>, c: nat, es: seq<Entry>)
    requires c + 1 < |J| && J[c] + |es| == J[c + 1] && Holds(I, C, J[c], es)
    ensures CscColumn(I, C, J, c) == es
  {
  }

  /** Counting and both `cumsum2` calls: Jc holds the starts of the
      columns' triplet slices, J the starts of the compressed columns, and
      each cursor w[c] the start of column c. */
  method Starts(It: array<nat>, Jt: array<nat>, Ct: array<real>, m: nat)
    returns (w: array<nat>, Jc: array<nat>, J: array<nat>)
    requires It.Length == Jt.Length == Ct.Length
    requires StrictUpper(Triplets(It[..], Jt[..], Ct[..]), m)
    ensures fresh(w) && fresh(Jc) && fresh(J) && w != Jc && w != J && Jc != J
    ensures w.Length == m && Jc.Length == m + 1 && J.Length == m + 1
    ensures Jc[..] == PrefixSums(ColCounts(Triplets(It[..], Jt[..], Ct[..]), m))
    ensures J[..] == PrefixSums(Degrees(Triplets(It[..], Jt[..], Ct[..]), m))
    ensures forall c :: 0 <= c < m ==> w[c] == J[c]
  {
    ghost var T := Triplets(It[..], Jt[..], Ct[..]);
    var w2;
    w, w2 := CountDegrees(It, Jt, Ct, m);
    Jc := new nat[m + 1];
    assert w2[..m] == ColCounts(T, m);
    CumSum2(Jc, w2, m);
    J := new nat[m + 1];
    assert w[..m] == Degrees(T, m);
    CumSum2(J, w, m);
    assert J[..] == J[..m + 1] && Jc[..] == Jc[..m + 1];
    forall c | 0 <= c < m
      ensures w[c] == J[c]
    {
      assert w[..m][c] == J[..m][c];
    }
  }

  /** Allocation of `2*ind + m` slots and the three fill passes through the
      cursors w: column c of the result is exactly `Column(T, c, ms)`. */
  method Build(It: array<nat>, Ct: array<real>, Jc: array<nat>, J: array<nat>, w: array<nat>,
               m: nat, ms: real, ghost T: seq<Triplet>)
    returns (I: array<nat>, C: array<real>)
    requires Describes(It[..], Ct[..], T) && Ordered(T, m)
    requires Jc.Length == m + 1 && J.Length == m + 1 && w.Length == m && w != J && w != Jc && w != It
    requires Jc[..] == PrefixSums(ColCounts(T, m)) && J[..] == PrefixSums(Degrees(T, m))
    requires forall c :: 0 <= c < m ==> w[c] == J[c]
    modifies w
    ensures fresh(I) && fresh(C) && I.Length == J[m] && C.Length == J[m] && J[m] == 2 * |T| + m
    ensures forall c :: 0 <= c < m ==> Holds(I[..], C[..], J[c], Column(T, c, ms))
  {
    TotalEntries(T, m);
    PrefixSumsShape(Degrees(T, m));
    var nnz := 2 * It.Length + m;
    I := new nat[nnz];
    C := new real[nnz];
    Fill(It, Ct, Jc, J, I, C, w, m, ms, T);
  }

  /** The sparse assembly from the trimmed triplet buffers: counting, the
      two `cumsum2` calls, allocation of `2*ind + m` slots and the three fill
      passes. Column c of the result is exactly `Column(T, c, ms)`: its upper
      rows, then the diagonal, then its mirrored lower rows. */
  method AssembleSparse(It: array<nat>, Jt: array<nat>, Ct: array<real>, m: nat, ms: real)
    returns (I: array<nat>, J: array<nat>, C: array<real>)
    requires It.Length == Jt.Length == Ct.Length
    requires Ordered(Triplets(It[..], Jt[..], Ct[..]), m)
    ensures J.Length == m + 1 && J[..] == PrefixSums(Degrees(Triplets(It[..], Jt[..], Ct[..]), m))
    ensures J[m] == 2 * It.Length + m && I.Length == J[m] && C.Length == J[m]
    ensures forall c, d :: 0 <= c <= d <= m ==> J[c] <= J[d]
    ensures forall c :: 0 <= c < m ==> CscColumn(I[..], C[..], J[..], c) == Column(Triplets(It[..], Jt[..], Ct[..]), c, ms)
  {
    ghost var T := Triplets(It[..], Jt[..], Ct[..]);
    var w, Jc;
    w, Jc, J := Starts(It, Jt, Ct, m);
    assert Describes(It[..], Ct[..], T);
    I, C := Build(It, Ct, Jc, J, w, m, ms, T);
    assert Triplets(It[..], Jt[..], Ct[..]) == T;
    FilledColumns(I[..], C[..], J[..], T, m, ms);
  }

  /** Once every column holds its contents, the compressed-column arrays
      are exactly the assembled matrix. */
  lemma FilledColumns(I: seq<nat>, C: seq<real>, J: seq<nat>, T: seq<Triplet>, m: nat, ms: real)
    requires J == PrefixSums(Degrees(T, m)) && J[m] <= |I| && J[m] <= |C|
    requires forall c :: 0 <= c < m ==> Holds(I, C, J[c], Column(T, c, ms))
    ensures forall c, d :: 0 <= c <= d <= m ==> J[c] <= J[d]
    ensures forall c :: 0 <= c < m ==> CscColumn(I, C, J, c) == Column(T, c, ms)
  {
    PrefixSumsShape(Degrees(T, m));
    forall c, d | 0 <= c <= d <= m
      ensures J[c] <= J[d]
    {
      PrefixSumsMonotone(Degrees(T, m), c, d);
    }
    forall c | 0 <= c < m
      ensures CscColumn(I, C, J, c) == Column(T, c, ms)
    {
      PrefixSumsMonotone(Degrees(T, m), c + 1, m);
      FullColumn(I, C, J, c, Column(T, c, ms));
    }
  }
}
