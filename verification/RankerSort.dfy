/** The hand-written in-place sort of ranker.go: median-of-three quicksort over an insertion-sort cut-off. */
module RankerSort {
  import opened RankerOrder

  // ---------- rearranging a range ----------

  /** `t` permutes the range [lo, hi) of `s` and leaves the rest alone. */
  ghost predicate Rearranged(s: seq<CandidateResult>, t: seq<CandidateResult>, lo: int, hi: int) {
    && |t| == |s|
    && multiset(t) == multiset(s)
    && forall k :: 0 <= k < |s| && !(lo <= k < hi) ==> t[k] == s[k]
  }

  lemma RangePermuted(s: seq<CandidateResult>, t: seq<CandidateResult>, lo: int, hi: int)
    requires 0 <= lo <= hi <= |s|
    requires Rearranged(s, t, lo, hi)
    ensures multiset(t[lo..hi]) == multiset(s[lo..hi])
  {
    assert t[..lo] == s[..lo];
    assert t[hi..] == s[hi..];
    MultisetParts(s, lo, hi);
    MultisetParts(t, lo, hi);
    var rest := multiset(s[..lo]) + multiset(s[hi..]);
    assert multiset(t[lo..hi]) == multiset(t) - rest == multiset(s) - rest == multiset(s[lo..hi]);
  }

  lemma MultisetParts(s: seq<CandidateResult>, lo: int, hi: int)
    requires 0 <= lo <= hi <= |s|
    ensures multiset(s) == multiset(s[lo..hi]) + (multiset(s[..lo]) + multiset(s[hi..]))
  {
    assert s == s[..lo] + s[lo..hi] + s[hi..];
  }

  /** A value of the new range was a value of the old one. */
  lemma RearrangedMember(s: seq<CandidateResult>, t: seq<CandidateResult>, lo: int, hi: int, k: int) returns (k': int)
    requires 0 <= lo <= k < hi <= |s|
    requires Rearranged(s, t, lo, hi)
    ensures lo <= k' < hi && s[k'] == t[k]
  {
    RangePermuted(s, t, lo, hi);
    assert t[k] == t[lo..hi][k - lo];
    assert t[k] in multiset(t[lo..hi]);
    assert t[k] in s[lo..hi];
    var m :| 0 <= m < |s[lo..hi]| && s[lo..hi][m] == t[k];
    k' := lo + m;
  }

  // ---------- what the quicksort loop keeps ----------

  ghost predicate SortedRange(s: seq<CandidateResult>, lo: int, hi: int)
    requires 0 <= lo <= hi <= |s|
  {
    forall p, q :: lo <= p < q < hi ==> Le(s[p], s[q])
  }

  /** Every pair of [lo, hi] that does not lie inside [l, h] is already in order. */
  ghost predicate Settled(s: seq<CandidateResult>, lo: int, hi: int, l: int, h: int)
    requires 0 <= lo && hi < |s|
  {
    forall p, q :: lo <= p < q <= hi && (p < l || h < q) ==> Le(s[p], s[q])
  }

  lemma SettledKept(s: seq<CandidateResult>, t: seq<CandidateResult>, lo: int, hi: int, l: int, h: int)
    requires 0 <= lo <= l <= h + 1 <= hi + 1 <= |s|
    requires Settled(s, lo, hi, l, h) && Rearranged(s, t, l, h + 1)
    ensures Settled(t, lo, hi, l, h)
  {
    forall p, q | lo <= p < q <= hi && (p < l || h < q)
      ensures Le(t[p], t[q])
    {
      var p' := p;
      if l <= p <= h { p' := RearrangedMember(s, t, l, h + 1, p); }
      var q' := q;
      if l <= q <= h { q' := RearrangedMember(s, t, l, h + 1, q); }
    }
  }

  /** The range [lo, hi] is split: below `i` nothing follows the pivot, above `j` nothing precedes it. */
  ghost predicate Split(s: seq<CandidateResult>, lo: int, hi: int, i: int, j: int, pivot: CandidateResult)
    requires 0 <= lo && hi < |s|
  {
    && (forall k :: lo <= k < i && k <= hi ==> Le(s[k], pivot))
    && (forall k :: j < k <= hi && lo <= k ==> Le(pivot, s[k]))
  }

  lemma SplitKept(s: seq<CandidateResult>, t: seq<CandidateResult>, lo: int, hi: int, i: int, j: int,
                  pivot: CandidateResult, l: int, h: int)
    requires 0 <= lo <= l <= h + 1 <= hi + 1 <= |s|
    requires h <= j < i || j < i <= l
    requires Split(s, lo, hi, i, j, pivot) && Rearranged(s, t, l, h + 1)
    ensures Split(t, lo, hi, i, j, pivot)
  {
    forall k | lo <= k <= hi
      ensures k < i ==> Le(t[k], pivot)
      ensures j < k ==> Le(pivot, t[k])
    {
      if l <= k <= h {
        var k' := RearrangedMember(s, t, l, h + 1, k);
      }
    }
  }

  /** Once the left side of a split is sorted, only the right side is left to do. */
  lemma SettledAfterLeft(s: seq<CandidateResult>, t: seq<CandidateResult>, lo: int, hi: int, l: int, h: int, i: int,
                         j: int,
                         pivot: CandidateResult)
    requires 0 <= lo <= l <= h <= hi < |s| && l - 1 <= j < i <= h + 1
    requires Settled(s, lo, hi, l, h) && Split(s, l, h, i, j, pivot)
    requires Rearranged(s, t, l, j + 1) && SortedRange(t, l, j + 1)
    ensures Settled(t, lo, hi, i, h)
  {
    assert Rearranged(s, t, l, h + 1);
    SettledKept(s, t, lo, hi, l, h);
    SplitKept(s, t, l, h, i, j, pivot, l, j);
    forall p, q | lo <= p < q <= hi && (p < i || h < q)
      ensures Le(t[p], t[q])
    {
      if l <= p && j < q <= h {
        LeTransitive(t[p], pivot, t[q]);
      }
    }
  }

  lemma SettledAfterRight(s: seq<CandidateResult>, t: seq<CandidateResult>, lo: int, hi: int, l: int, h: int, i: int,
                          j: int,
                          pivot: CandidateResult)
    requires 0 <= lo <= l <= h <= hi < |s| && l - 1 <= j < i <= h + 1
    requires Settled(s, lo, hi, l, h) && Split(s, l, h, i, j, pivot)
    requires Rearranged(s, t, i, h + 1) && SortedRange(t, i, h + 1)
    ensures Settled(t, lo, hi, l, j)
  {
    assert Rearranged(s, t, l, h + 1);
    SettledKept(s, t, lo, hi, l, h);
    SplitKept(s, t, l, h, i, j, pivot, i, h);
    forall p, q | lo <= p < q <= hi && (p < l || j < q)
      ensures Le(t[p], t[q])
    {
      if l <= p < i && q <= h {
        LeTransitive(t[p], pivot, t[q]);
      }
    }
  }

  /** Sorting the whole of [l, h] settles everything. */
  lemma SettledInside(s: seq<CandidateResult>, t: seq<CandidateResult>, lo: int, hi: int, l: int, h: int)
    requires 0 <= lo <= l <= h <= hi < |s|
    requires Settled(s, lo, hi, l, h) && Rearranged(s, t, l, h + 1) && SortedRange(t, l, h + 1)
    ensures SortedRange(t, lo, hi + 1)
  {
    SettledKept(s, t, lo, hi, l, h);
  }

  // ---------- the code ----------

  method Swap(a: array<CandidateResult>, i: int, j: int, ghost lo: int, ghost hi: int)
    requires 0 <= lo <= i < hi <= a.Length && lo <= j < hi
    modifies a
    ensures a[..] == old(a[..])[i := old(a[j])][j := old(a[i])]
    ensures Rearranged(old(a[..]), a[..], lo, hi)
  {
    a[i], a[j] := a[j], a[i];
  }

  /** The unguarded upward scan; `stop` is a sentinel it cannot pass. */
  method ScanUp(a: array<CandidateResult>, from: int, pivot: CandidateResult, ghost stop: int) returns (i: int)
    requires 0 <= from <= stop < a.Length && Le(pivot, a[stop])
    ensures from <= i <= stop && Le(pivot, a[i])
    ensures forall k :: from <= k < i ==> Le(a[k], pivot)
  {
    i := from;
    while Better(a[i], pivot)
      invariant from <= i <= stop
      invariant forall k :: from <= k < i ==> Le(a[k], pivot)
      decreases stop - i
    {
      BetterAsymmetric(a[i], pivot);
      i := i + 1;
    }
  }

  /** The unguarded downward scan. */
  method ScanDown(a: array<CandidateResult>, from: int, pivot: CandidateResult, ghost stop: int) returns (j: int)
    requires 0 <= stop <= from < a.Length && Le(a[stop], pivot)
    ensures stop <= j <= from && Le(a[j], pivot)
    ensures forall k :: j < k <= from ==> Le(pivot, a[k])
  {
    j := from;
    while Better(pivot, a[j])
      invariant stop <= j <= from
      invariant forall k :: j < k <= from ==> Le(pivot, a[k])
      decreases j - stop
    {
      BetterAsymmetric(pivot, a[j]);
      j := j - 1;
    }
  }

  /** Puts the two candidates at `i` and `j` in order. */
  method OrderPair(a: array<CandidateResult>, i: int, j: int, ghost lo: int, ghost hi: int)
    requires 0 <= lo <= i < j < hi <= a.Length
    modifies a
    ensures Rearranged(old(a[..]), a[..], lo, hi)
    ensures Le(a[i], a[j])
    ensures if Better(old(a[j]), old(a[i])) then a[i] == old(a[j]) && a[j] == old(a[i]) else a[..] == old(a[..])
    ensures forall k :: 0 <= k < a.Length && k != i && k != j ==> a[k] == old(a[k])
  {
    if Better(a[j], a[i]) {
      BetterAsymmetric(a[j], a[i]);
      Swap(a, i, j, lo, hi);
    }
  }

  /** Sorts the first, middle and last candidate among themselves. */
  method MedianOfThree(a: array<CandidateResult>, lo: int, hi: int) returns (mid: int)
    requires 0 <= lo && lo + 12 <= hi < a.Length
    modifies a
    ensures lo < mid < hi
    ensures Rearranged(old(a[..]), a[..], lo, hi + 1)
    ensures Le(a[lo], a[mid]) && Le(a[mid], a[hi])
  {
    mid := lo + (hi - lo) / 2;
    OrderPair(a, lo, mid, lo, hi + 1);
    ghost var x, y, z := a[lo], a[mid], a[hi];
    OrderPair(a, lo, hi, lo, hi + 1);
    MedianStep(x, y, z, a[lo], a[hi]);
    OrderPair(a, mid, hi, lo, hi + 1);
  }

  lemma MedianStep(x: CandidateResult, y: CandidateResult, z: CandidateResult, lo: CandidateResult, hi: CandidateResult)
    requires Le(x, y) && Le(lo, hi)
    requires if Better(z, x) then lo == z && hi == x else lo == x && hi == z
    ensures Le(lo, y)
  {
    if Better(z, x) {
      BetterAsymmetric(z, x);
      LeTransitive(z, x, y);
    }
  }

  /** What a pass keeps. `up` and `down` are the sentinels of the next two scans: first the pivot itself,
      then the pair swapped last. */
  ghost predicate Pass(s: seq<CandidateResult>, lo: int, hi: int, i: int, j: int, pivot: CandidateResult, up: int,
                       down: int) {
    && 0 <= lo <= i <= hi + 1 <= |s| && lo - 1 <= j <= hi
    && Split(s, lo, hi, i, j, pivot)
    && (i <= j ==> i <= up <= hi && Le(pivot, s[up]) && lo <= down <= j && Le(s[down], pivot))
  }

  /** Two scans and a swap. */
  method PartitionStep(a: array<CandidateResult>, lo: int, hi: int, i0: int, j0: int, pivot: CandidateResult,
                       ghost up0: int, ghost down0: int)
    returns (i: int, j: int, ghost up: int, ghost down: int)
    requires 0 <= lo <= hi < a.Length && i0 <= j0
    requires Pass(a[..], lo, hi, i0, j0, pivot, up0, down0)
    modifies a
    ensures Rearranged(old(a[..]), a[..], lo, hi + 1)
    ensures Pass(a[..], lo, hi, i, j, pivot, up, down)
    ensures i0 <= i && j <= j0 && j - i < j0 - i0
    ensures i0 == lo && j0 == hi && up0 == down0 ==> lo < i && j < hi
  {
    up, down := up0, down0;
    i := ScanUp(a, i0, pivot, up0);
    j := ScanDown(a, j0, pivot, down0);
    if i <= j {
      Swap(a, i, j, lo, hi + 1);
      up, down := j, i;
      i := i + 1;
      j := j - 1;
    }
  }

  /** One pass: choose the median of three, then partition [lo, hi] around it. Both sides end strictly smaller. */
  method Partition(a: array<CandidateResult>, lo: int, hi: int) returns (i: int, j: int, pivot: CandidateResult)
    requires 0 <= lo && lo + 12 <= hi < a.Length
    modifies a
    ensures Rearranged(old(a[..]), a[..], lo, hi + 1)
    ensures lo < i && j < hi && lo - 1 <= j < i <= hi + 1
    ensures Split(a[..], lo, hi, i, j, pivot)
  {
    var mid := MedianOfThree(a, lo, hi);
    pivot := a[mid];
    BetterIrreflexive(pivot);
    ghost var up, down := mid, mid;
    i, j := lo, hi;
    while i <= j
      invariant (i == lo && j == hi && up == down) || (lo < i && j < hi)
      invariant Rearranged(old(a[..]), a[..], lo, hi + 1)
      invariant Pass(a[..], lo, hi, i, j, pivot, up, down)
      decreases j - i
    {
      i, j, up, down := PartitionStep(a, lo, hi, i, j, pivot, up, down);
    }
  }

  /** `t` is `s` with the entry at `i` moved down to `j` and [j, i) shifted up. */
  ghost predicate Inserted(s: seq<CandidateResult>, t: seq<CandidateResult>, j: int, i: int)
    requires 0 <= j <= i < |s|
  {
    && |t| == |s|
    && t[j] == s[i]
    && (forall k {:trigger s[k]} :: j <= k < i ==> t[k + 1] == s[k])
    && (forall k {:trigger s[k]} :: 0 <= k < |s| && !(j <= k <= i) ==> t[k] == s[k])
  }

  lemma InsertedRearranges(s: seq<CandidateResult>, t: seq<CandidateResult>, j: int, i: int, lo: int, hi: int)
    requires 0 <= lo <= j <= i < hi <= |s|
    requires Inserted(s, t, j, i)
    ensures Rearranged(s, t, lo, hi)
  {
    assert t[j + 1..i + 1] == s[j..i];
    assert t == s[..j] + ([s[i]] + s[j..i]) + s[i + 1..];
    assert s == s[..j] + (s[j..i] + [s[i]]) + s[i + 1..];
    assert multiset([s[i]] + s[j..i]) == multiset(s[j..i] + [s[i]]);
  }

  lemma InsertedSorted(s: seq<CandidateResult>, t: seq<CandidateResult>, j: int, i: int, lo: int)
    requires 0 <= lo <= j <= i < |s|
    requires SortedRange(s, lo, i) && Inserted(s, t, j, i)
    requires forall k :: j <= k < i ==> Le(s[i], s[k])
    requires j > lo ==> Le(s[j - 1], s[i])
    ensures SortedRange(t, lo, i + 1)
  {
    forall p, q | lo <= p < q < i + 1
      ensures Le(t[p], t[q])
    {
      var p' := if p < j then p else if p == j then i else p - 1;
      var q' := if q < j then q else if q == j then i else q - 1;
      assert t[p] == (if p > j then t[p' + 1] else t[p]) == s[p'];
      assert t[q] == (if q > j then t[q' + 1] else t[q]) == s[q'];
      if q == j && p < j - 1 {
        LeTransitive(s[p], s[j - 1], s[i]);
      }
    }
  }

  /** The inner loop of insertion sort: shifts the larger candidates up and puts `a[i]` in the gap. */
  method Insert(a: array<CandidateResult>, lo: int, i: int) returns (ghost j0: int)
    requires 0 <= lo < i < a.Length
    modifies a
    ensures lo <= j0 <= i
    ensures forall k :: j0 <= k < i ==> Le(old(a[i]), old(a[k]))
    ensures j0 > lo ==> Le(old(a[j0 - 1]), old(a[i]))
    ensures Inserted(old(a[..]), a[..], j0, i)
  {
    var current := a[i];
    var j := i - 1;
    ghost var s := a[..];
    while j >= lo && Better(current, a[j])
      invariant lo - 1 <= j < i
      invariant forall k {:trigger s[k]} :: 0 <= k < a.Length && !(j + 1 < k <= i) ==> a[k] == s[k]
      invariant forall k {:trigger s[k]} :: j < k < i ==> a[k + 1] == s[k]
      invariant forall k {:trigger s[k]} :: j < k < i ==> Le(current, s[k])
    {
      assert a[j] == s[j];
      BetterAsymmetric(current, a[j]);
      a[j + 1] := a[j];
      j := j - 1;
    }
    assert j >= lo ==> a[j] == s[j];
    a[j + 1] := current;
    j0 := j + 1;
  }

  method InsertStep(a: array<CandidateResult>, lo: int, i: int, ghost hi: int)
    requires 0 <= lo < i < hi <= a.Length
    requires SortedRange(a[..], lo, i)
    modifies a
    ensures Rearranged(old(a[..]), a[..], lo, hi)
    ensures SortedRange(a[..], lo, i + 1)
  {
    ghost var s := a[..];
    ghost var j := Insert(a, lo, i);
    InsertedRearranges(s, a[..], j, i, lo, hi);
    InsertedSorted(s, a[..], j, i, lo);
  }

  /** Insertion sort of the subslice [lo, hi). */
  method InsertionSort(a: array<CandidateResult>, lo: int, hi: int)
    requires 0 <= lo <= hi <= a.Length
    modifies a
    ensures Rearranged(old(a[..]), a[..], lo, hi)
    ensures SortedRange(a[..], lo, hi)
  {
    var i := lo + 1;
    while i < hi
      invariant lo < i && (i <= hi || lo == hi)
      invariant Rearranged(old(a[..]), a[..], lo, hi)
      invariant i <= hi ==> SortedRange(a[..], lo, i)
    {
      InsertStep(a, lo, i, hi);
      i := i + 1;
    }
  }

  function Pow2(n: nat): nat {
    if n == 0 then 1 else 2 * Pow2(n - 1)
  }

  lemma DepthStep(d: nat, part: int, whole: int)
    requires Pow2(d) <= part && 2 * part <= whole
    ensures Pow2(d + 1) <= whole
  {
  }

  /** `quickSortCandidateResults`. `depth` counts the nested calls below this one: at most log2 of the slice. */
  method QuickSort(a: array<CandidateResult>, lo0: int, hi0: int) returns (ghost depth: nat)
    requires 0 <= lo0 <= hi0 < a.Length
    modifies a
    ensures Rearranged(old(a[..]), a[..], lo0, hi0 + 1)
    ensures SortedRange(a[..], lo0, hi0 + 1)
    ensures Pow2(depth) <= hi0 - lo0 + 1
    decreases hi0 - lo0
  {
    var lo, hi := lo0, hi0;
    depth := 0;
    while lo < hi
      invariant lo0 <= lo && hi <= hi0 && lo <= hi + 1
      invariant Rearranged(old(a[..]), a[..], lo0, hi0 + 1)
      invariant Settled(a[..], lo0, hi0, lo, hi)
      invariant Pow2(depth) <= hi0 - lo0 + 1
      decreases hi - lo
    {
      ghost var s := a[..];
      if hi - lo < 12 {
        InsertionSort(a, lo, hi + 1);
        SettledInside(s, a[..], lo0, hi0, lo, hi);
        return;
      }
      var i, j, pivot := Partition(a, lo, hi);
      SettledKept(s, a[..], lo0, hi0, lo, hi);
      s := a[..];
      if j - lo < hi - i {
        if lo < j {
          ghost var d := QuickSort(a, lo, j);
          DepthStep(d, j - lo + 1, hi0 - lo0 + 1);
          depth := if depth < d + 1 then d + 1 else depth;
        }
        SettledAfterLeft(s, a[..], lo0, hi0, lo, hi, i, j, pivot);
        lo := i;
      } else {
        if i < hi {
          ghost var d := QuickSort(a, i, hi);
          DepthStep(d, hi - i + 1, hi0 - lo0 + 1);
          depth := if depth < d + 1 then d + 1 else depth;
        }
        SettledAfterRight(s, a[..], lo0, hi0, lo, hi, i, j, pivot);
        hi := j;
      }
    }
  }

  /** `sortCandidateResults`: short slices go straight to insertion sort. */
  method SortCandidateResults(a: array<CandidateResult>)
    modifies a
    ensures multiset(a[..]) == multiset(old(a[..]))
    ensures SortedRange(a[..], 0, a.Length)
  {
    if a.Length < 12 {
      InsertionSort(a, 0, a.Length);
    } else {
      ghost var depth := QuickSort(a, 0, a.Length - 1);
    }
  }
}
