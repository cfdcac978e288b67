/** Go's `sort.SliceStable` and `sort.Slice` as a stable insertion, and `sort.Search`. */
module StableSort {

  /** Strict weak order. */
  ghost predicate Order<T(!new)>(before: (T, T) -> bool) {
    && (forall x :: !before(x, x))
    && (forall x, y :: before(x, y) ==> !before(y, x))
    && (forall x, y, z :: !before(y, x) && !before(z, y) ==> !before(z, x))
  }

  ghost predicate Sorted<T(!new)>(s: seq<T>, before: (T, T) -> bool) {
    forall i, j :: 0 <= i < j < |s| ==> !before(s[j], s[i])
  }

  /** Puts `x` after everything that is not after it. */
  function Insert<T>(s: seq<T>, x: T, before: (T, T) -> bool): seq<T> {
    if s == [] || !before(x, s[|s| - 1]) then s + [x] else Insert(s[..|s| - 1], x, before) + [s[|s| - 1]]
  }

  function Sort<T>(s: seq<T>, before: (T, T) -> bool): seq<T> {
    if s == [] then [] else Insert(Sort(s[..|s| - 1], before), s[|s| - 1], before)
  }

  lemma {:induction false} InsertPermutes<T>(s: seq<T>, x: T, before: (T, T) -> bool)
    ensures multiset(Insert(s, x, before)) == multiset(s) + multiset{x}
    ensures |Insert(s, x, before)| == |s| + 1
  {
    if s != [] && before(x, s[|s| - 1]) {
      InsertPermutes(s[..|s| - 1], x, before);
      assert s == s[..|s| - 1] + [s[|s| - 1]];
    }
  }

  lemma {:induction false} InsertSorted<T(!new)>(s: seq<T>, x: T, before: (T, T) -> bool)
    requires Order(before) && Sorted(s, before)
    ensures Sorted(Insert(s, x, before), before)
  {
    if s != [] && before(x, s[|s| - 1]) {
      var front := s[..|s| - 1];
      InsertSorted(front, x, before);
      InsertPermutes(front, x, before);
      var r := Insert(front, x, before);
      forall i | 0 <= i < |r|
        ensures !before(s[|s| - 1], r[i])
      {
        assert r[i] in multiset(r);
        assert r[i] in front || r[i] == x;
      }
    }
  }

  lemma {:induction false} SortPermutes<T>(s: seq<T>, before: (T, T) -> bool)
    ensures multiset(Sort(s, before)) == multiset(s)
    ensures |Sort(s, before)| == |s|
  {
    if s != [] {
      var front := s[..|s| - 1];
      SortPermutes(front, before);
      InsertPermutes(Sort(front, before), s[|s| - 1], before);
      assert multiset(s) == multiset(front) + multiset{s[|s| - 1]} by { assert s == front + [s[|s| - 1]]; }
    }
  }

  lemma {:induction false} SortSorted<T(!new)>(s: seq<T>, before: (T, T) -> bool)
    requires Order(before)
    ensures Sorted(Sort(s, before), before)
  {
    if s != [] {
      SortSorted(s[..|s| - 1], before);
      InsertSorted(Sort(s[..|s| - 1], before), s[|s| - 1], before);
    }
  }

  lemma SortMembers<T>(s: seq<T>, before: (T, T) -> bool)
    ensures forall x :: x in Sort(s, before) <==> x in s
  {
    SortPermutes(s, before);
    assert forall x :: x in Sort(s, before) <==> x in multiset(Sort(s, before));
  }

  /** Any two different entries of `s` are told apart. */
  ghost predicate Apart<T(!new)>(s: seq<T>, before: (T, T) -> bool) {
    forall x, y :: x in s && y in s && x != y ==> before(x, y) || before(y, x)
  }

  lemma SortedLastSame<T(!new)>(s: seq<T>, t: seq<T>, before: (T, T) -> bool)
    requires Sorted(s, before) && Sorted(t, before) && Apart(s, before)
    requires s != [] && t != [] && multiset(s) == multiset(t)
    ensures s[|s| - 1] == t[|t| - 1]
  {
    var x, y := s[|s| - 1], t[|t| - 1];
    assert x in multiset(t) && y in multiset(s);
    var i :| 0 <= i < |s| && s[i] == y;
    var j :| 0 <= j < |t| && t[j] == x;
    assert i == |s| - 1 || !before(x, y);
    assert j == |t| - 1 || !before(y, x);
  }

  lemma DropLast<T>(s: seq<T>)
    requires s != []
    ensures s == s[..|s| - 1] + [s[|s| - 1]]
    ensures multiset(s[..|s| - 1]) == multiset(s) - multiset{s[|s| - 1]}
  {
    assert s == s[..|s| - 1] + [s[|s| - 1]];
  }

  lemma SameSize<T>(s: seq<T>, t: seq<T>)
    requires multiset(s) == multiset(t)
    ensures |s| == |t|
  {
    assert |multiset(s)| == |s| && |multiset(t)| == |t|;
  }

  /** Where the order tells any two entries apart, there is one sorted arrangement. */
  lemma {:induction false} SortedUnique<T(!new)>(s: seq<T>, t: seq<T>, before: (T, T) -> bool)
    requires Sorted(s, before) && Sorted(t, before) && Apart(s, before)
    requires multiset(s) == multiset(t)
    ensures s == t
    decreases |s|
  {
    SameSize(s, t);
    if s != [] {
      SortedLastSame(s, t, before);
      DropLast(s);
      DropLast(t);
      var s', t' := s[..|s| - 1], t[..|t| - 1];
      assert Apart(s', before) by {
        assert forall x :: x in s' ==> x in s;
      }
      SortedUnique(s', t', before);
    }
  }

  ghost predicate NoDuplicates<T>(s: seq<T>) {
    forall i, j :: 0 <= i < j < |s| ==> s[i] != s[j]
  }

  lemma {:induction false} NoDuplicatesCount<T>(s: seq<T>, x: T)
    requires NoDuplicates(s)
    ensures multiset(s)[x] == if x in s then 1 else 0
  {
    if s != [] {
      var n := |s| - 1;
      NoDuplicatesCount(s[..n], x);
      assert s == s[..n] + [s[n]];
    }
  }

  ghost predicate SameMembers<T(!new)>(s: seq<T>, t: seq<T>) {
    forall x :: x in s <==> x in t
  }

  lemma NoDuplicatesSame<T(!new)>(s: seq<T>, t: seq<T>)
    requires NoDuplicates(s) && NoDuplicates(t) && SameMembers(s, t)
    ensures multiset(s) == multiset(t)
  {
    forall x ensures multiset(s)[x] == multiset(t)[x] {
      NoDuplicatesCount(s, x);
      NoDuplicatesCount(t, x);
    }
  }

  lemma CountedTwice<T>(t: seq<T>, i: int, j: int)
    requires 0 <= i < j < |t| && t[i] == t[j]
    ensures multiset(t)[t[i]] >= 2
  {
    assert t == t[..j] + t[j..];
    assert t[..j][i] in multiset(t[..j]) && t[j..][0] in multiset(t[j..]);
  }

  lemma SortNoDuplicates<T>(s: seq<T>, before: (T, T) -> bool)
    requires NoDuplicates(s)
    ensures NoDuplicates(Sort(s, before))
  {
    var t := Sort(s, before);
    SortPermutes(s, before);
    forall i, j | 0 <= i < j < |t|
      ensures t[i] != t[j]
    {
      NoDuplicatesCount(s, t[i]);
      if t[i] == t[j] {
        CountedTwice(t, i, j);
      }
    }
  }

  ghost predicate Disjoint<T(!new)>(s: seq<T>, t: seq<T>) {
    forall x :: x in s ==> x !in t
  }

  lemma JoinedNoDuplicates<T(!new)>(s: seq<T>, t: seq<T>)
    requires NoDuplicates(s) && NoDuplicates(t) && Disjoint(s, t)
    ensures NoDuplicates(s + t) && forall x :: x in s + t <==> x in s || x in t
  {
    assert forall i :: 0 <= i < |s| ==> s[i] in s;
    assert forall j :: 0 <= j < |t| ==> t[j] in t;
  }

  // ---------- what comes before what ----------

  ghost predicate Precedes<T>(s: seq<T>, x: T, y: T) {
    exists i, j :: 0 <= i < j < |s| && s[i] == x && s[j] == y
  }

  lemma PrecedesAppend<T>(s: seq<T>, t: seq<T>, x: T, y: T)
    ensures Precedes(s, x, y) || Precedes(t, x, y) || (x in s && y in t) ==> Precedes(s + t, x, y)
  {
    var u := s + t;
    if Precedes(s, x, y) {
      var i, j :| 0 <= i < j < |s| && s[i] == x && s[j] == y;
      assert u[i] == x && u[j] == y;
    } else if Precedes(t, x, y) {
      var i, j :| 0 <= i < j < |t| && t[i] == x && t[j] == y;
      assert u[|s| + i] == x && u[|s| + j] == y;
    } else if x in s && y in t {
      var i :| 0 <= i < |s| && s[i] == x;
      var j :| 0 <= j < |t| && t[j] == y;
      assert u[i] == x && u[|s| + j] == y;
    }
  }

  lemma PrecedesOnce<T>(s: seq<T>, x: T, y: T)
    requires NoDuplicates(s) && Precedes(s, x, y)
    ensures !Precedes(s, y, x) && x != y && x in s && y in s
  {
    var i, j :| 0 <= i < j < |s| && s[i] == x && s[j] == y;
    forall k, m | 0 <= k < m < |s|
      ensures s[k] != y || s[m] != x
    {
    }
  }

  /** In a sorted list, what is before precedes. */
  lemma SortedPrecedes<T(!new)>(s: seq<T>, before: (T, T) -> bool, x: T, y: T)
    requires Sorted(s, before) && x in s && y in s && x != y && before(x, y)
    ensures Precedes(s, x, y)
  {
    var i :| 0 <= i < |s| && s[i] == x;
    var j :| 0 <= j < |s| && s[j] == y;
    assert i < j;
  }

  lemma {:induction false} InsertKeeps<T>(s: seq<T>, z: T, before: (T, T) -> bool, x: T, y: T)
    requires Precedes(s, x, y)
    ensures Precedes(Insert(s, z, before), x, y)
  {
    var i, j :| 0 <= i < j < |s| && s[i] == x && s[j] == y;
    if !before(z, s[|s| - 1]) {
      PrecedesAppend(s, [z], x, y);
    } else {
      var n := |s| - 1;
      InsertPermutes(s[..n], z, before);
      if j < n {
        assert s[..n][i] == x && s[..n][j] == y;
        InsertKeeps(s[..n], z, before, x, y);
      } else {
        assert s[..n][i] == x;
        assert x in multiset(Insert(s[..n], z, before));
      }
      PrecedesAppend(Insert(s[..n], z, before), [s[n]], x, y);
    }
  }

  lemma {:induction false} InsertBehind<T>(s: seq<T>, z: T, before: (T, T) -> bool, x: T)
    requires x in s && !before(z, x)
    ensures Precedes(Insert(s, z, before), x, z)
  {
    var n := |s| - 1;
    if !before(z, s[n]) {
      PrecedesAppend(s, [z], x, z);
    } else {
      assert s == s[..n] + [s[n]];
      InsertBehind(s[..n], z, before, x);
      PrecedesAppend(Insert(s[..n], z, before), [s[n]], x, z);
    }
  }

  /** The sort is stable: what precedes still does, unless it has to come after. */
  lemma {:induction false} SortKeeps<T>(s: seq<T>, before: (T, T) -> bool, x: T, y: T)
    requires Precedes(s, x, y) && !before(y, x)
    ensures Precedes(Sort(s, before), x, y)
  {
    var i, j :| 0 <= i < j < |s| && s[i] == x && s[j] == y;
    var n := |s| - 1;
    assert s[..n][i] == x;
    if j < n {
      assert s[..n][j] == y;
      SortKeeps(s[..n], before, x, y);
      InsertKeeps(Sort(s[..n], before), s[n], before, x, y);
    } else {
      SortMembers(s[..n], before);
      InsertBehind(Sort(s[..n], before), y, before, x);
    }
  }

  /** So what precedes after sorting and is not before did not come after. */
  lemma TiesAsBefore<T>(s: seq<T>, before: (T, T) -> bool, x: T, y: T)
    requires NoDuplicates(s) && Precedes(Sort(s, before), x, y) && !before(x, y)
    ensures !Precedes(s, y, x)
  {
    SortNoDuplicates(s, before);
    PrecedesOnce(Sort(s, before), x, y);
    if Precedes(s, y, x) {
      SortKeeps(s, before, y, x);
    }
  }

  // ---------- some of the entries ----------

  function Keep<T>(s: seq<T>, keep: T -> bool): seq<T> {
    if s == [] then [] else (if keep(s[0]) then [s[0]] else []) + Keep(s[1..], keep)
  }

  lemma {:induction false} KeepMembers<T>(s: seq<T>, keep: T -> bool, x: T)
    ensures x in Keep(s, keep) <==> x in s && keep(x)
  {
    if s != [] {
      KeepMembers(s[1..], keep, x);
      assert s == [s[0]] + s[1..];
    }
  }

  lemma {:induction false} KeepAll<T>(s: seq<T>, keep: T -> bool)
    requires forall x :: x in s ==> keep(x)
    ensures Keep(s, keep) == s
  {
    if s != [] {
      KeepAll(s[1..], keep);
    }
  }

  lemma {:induction false} KeepPrecedes<T>(s: seq<T>, keep: T -> bool, x: T, y: T)
    ensures Precedes(Keep(s, keep), x, y) <==> Precedes(s, x, y) && keep(x) && keep(y)
  {
    if s != [] {
      var first, rest := s[0], s[1..];
      KeepPrecedes(rest, keep, x, y);
      KeepMembers(rest, keep, y);
      FirstPrecedes(first, rest, x, y);
      FirstPrecedes(first, Keep(rest, keep), x, y);
      assert s == [first] + rest;
      assert Keep(s, keep) == if keep(first) then [first] + Keep(rest, keep) else Keep(rest, keep);
    }
  }

  lemma FirstPrecedes<T>(first: T, rest: seq<T>, x: T, y: T)
    ensures Precedes([first] + rest, x, y) <==> Precedes(rest, x, y) || (x == first && y in rest)
  {
    PrecedesAppend([first], rest, x, y);
    if Precedes([first] + rest, x, y) {
      var i, j :| 0 <= i < j < |[first] + rest| && ([first] + rest)[i] == x && ([first] + rest)[j] == y;
      assert rest[j - 1] == y;
      if i > 0 {
        assert rest[i - 1] == x;
      }
    }
  }

  lemma KeepSorted<T(!new)>(s: seq<T>, keep: T -> bool, before: (T, T) -> bool)
    requires Sorted(s, before)
    ensures Sorted(Keep(s, keep), before)
  {
    var t := Keep(s, keep);
    forall i, j | 0 <= i < j < |t|
      ensures !before(t[j], t[i])
    {
      assert Precedes(t, t[i], t[j]);
      KeepPrecedes(s, keep, t[i], t[j]);
    }
  }

  lemma {:induction false} KeepNoDuplicates<T(!new)>(s: seq<T>, keep: T -> bool)
    requires NoDuplicates(s)
    ensures NoDuplicates(Keep(s, keep))
  {
    if s != [] {
      KeepNoDuplicates(s[1..], keep);
      KeepMembers(s[1..], keep, s[0]);
    }
  }

  /** `sort.Search`: the least index at which `f` holds, for an `f` that stays true once true. */
  method Search(n: nat, f: int --> bool) returns (i: int)
    requires forall k :: 0 <= k < n ==> f.requires(k)
    requires forall k, m :: 0 <= k < m < n && f(k) ==> f(m)
    ensures 0 <= i <= n
    ensures forall k :: 0 <= k < i ==> !f(k)
    ensures forall k :: i <= k < n ==> f(k)
  {
    i := 0;
    var j := n;
    while i < j
      invariant 0 <= i <= j <= n
      invariant forall k :: 0 <= k < i ==> !f(k)
      invariant forall k :: j <= k < n ==> f(k)
    {
      var h := i + (j - i) / 2;
      if !f(h) {
        i := h + 1;
      } else {
        j := h;
      }
    }
  }
}
