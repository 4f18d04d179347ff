/** Exclusive prefix sums over index counts, and the in-place `cumsum2` helper
    that turns a count array into column start offsets and write cursors. */
module PrefixSum {

  /** Total of a sequence of counts. */
  function Sum(s: seq<nat>): nat
  {
    if s == [] then 0 else Sum(s[..|s| - 1]) + s[|s| - 1]
  }

  /** Exclusive prefix sums: entry i is the total of the first i counts,
      so the result has one entry more than the counts. */
  function PrefixSums(s: seq<nat>): (r: seq<nat>)
    ensures |r| == |s| + 1
  {
    seq(|s| + 1, i requires 0 <= i <= |s| => Sum(s[..i]))
  }

  /** Extending the counts by one element adds that element to the total. */
  lemma SumSnoc(s: seq<nat>, i: nat)
    requires i < |s|
    ensures Sum(s[..i + 1]) == Sum(s[..i]) + s[i]
  {
    assert s[..i + 1][..i] == s[..i];
  }

  /** The prefix sums start at 0, each step adds the next count, and the
      last entry is the sum of all counts. */
  lemma PrefixSumsShape(s: seq<nat>)
    ensures PrefixSums(s)[0] == 0
    ensures PrefixSums(s)[|s|] == Sum(s)
    ensures forall i :: 0 <= i < |s| ==> PrefixSums(s)[i + 1] == PrefixSums(s)[i] + s[i]
  {
    assert s[..|s|] == s;
    forall i | 0 <= i < |s|
      ensures PrefixSums(s)[i + 1] == PrefixSums(s)[i] + s[i]
    {
      SumSnoc(s, i);
    }
  }

  /** Prefix sums never decrease, and the gap between two of them is the
      sum of the counts in between, so it is at least any one of those counts. */
  lemma {:induction false} PrefixSumsMonotone(s: seq<nat>, a: nat, b: nat)
    requires a <= b <= |s|
    ensures PrefixSums(s)[a] <= PrefixSums(s)[b]
    ensures a < b ==> PrefixSums(s)[a] + s[a] <= PrefixSums(s)[b]
    decreases b - a
  {
    if a < b {
      SumSnoc(s, a);
      PrefixSumsMonotone(s, a + 1, b);
    }
  }

  /** `cumsum2(p, c, n)`: writes the exclusive prefix sums of c[0..n) into
      p[0..n] and overwrites every c[i] with p[i], so that c can then be used
      as a write cursor starting at each column's first slot. Entries past
      the first n (of c) and n+1 (of p) are untouched. */
  method CumSum2(p: array<nat>, c: array<nat>, n: nat)
    requires n < p.Length && n <= c.Length
    requires p != c
    modifies p, c
    ensures p[..n + 1] == PrefixSums(old(c[..n]))
    ensures c[..n] == p[..n]
    ensures p[n + 1..] == old(p[n + 1..]) && c[n..] == old(c[n..])
  {
    ghost var counts := c[..n];
    var i := 0;
    var nz := 0;
    while i < n
      invariant 0 <= i <= n
      invariant c[i..] == old(c[i..]) && p[i..] == old(p[i..])
      invariant nz == Sum(counts[..i])
      invariant p[..i] == PrefixSums(counts)[..i]
      invariant c[..i] == p[..i]
    {
      p[i] := nz;
      assert c[i] == counts[i];
      SumSnoc(counts, i);
      nz := nz + c[i];
      c[i] := p[i];
      i := i + 1;
    }
    p[n] := nz;
    assert counts[..n] == counts;
  }
}
