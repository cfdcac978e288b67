/** Sums, concatenations and last entries of lists, in which results are described. */
module Folds {

  function Sum(xs: seq<real>): real {
    if xs == [] then 0.0 else xs[0] + Sum(xs[1..])
  }

  lemma {:induction false} SumAppend(xs: seq<real>, ys: seq<real>)
    ensures Sum(xs + ys) == Sum(xs) + Sum(ys)
  {
    if xs == [] {
      assert xs + ys == ys;
    } else {
      assert (xs + ys)[1..] == xs[1..] + ys;
      SumAppend(xs[1..], ys);
    }
  }

  lemma SumStep(x: real, xs: seq<real>)
    ensures Sum([x] + xs) == x + Sum(xs)
  {
    assert ([x] + xs)[1..] == xs;
  }

  lemma SumOne(x: real)
    ensures Sum([x]) == x
  {
    assert [x][1..] == [];
  }

  function Concat<T>(xss: seq<seq<T>>): seq<T> {
    if xss == [] then [] else xss[0] + Concat(xss[1..])
  }

  lemma {:induction false} ConcatAppend<T>(xss: seq<seq<T>>, ys: seq<T>)
    ensures Concat(xss + [ys]) == Concat(xss) + ys
  {
    if xss == [] {
      assert ([] + [ys])[1..] == [];
      assert Concat([] + [ys]) == ys + [];
    } else {
      assert (xss + [ys])[1..] == xss[1..] + [ys];
      ConcatAppend(xss[1..], ys);
    }
  }

  /** `k` is the last entry with the property. */
  predicate IsLast<T>(s: seq<T>, p: T -> bool, k: int) {
    0 <= k < |s| && p(s[k]) && forall j :: k < j < |s| ==> !p(s[j])
  }

  predicate NoneIs<T>(s: seq<T>, p: T -> bool) {
    forall j :: 0 <= j < |s| ==> !p(s[j])
  }

  /** Some entry is the last one with the property, or none has it. */
  lemma {:induction false} LastOrNone<T>(s: seq<T>, p: T -> bool)
    ensures NoneIs(s, p) || exists k :: IsLast(s, p, k)
  {
    if s != [] && !p(s[|s| - 1]) {
      var n := |s| - 1;
      LastOrNone(s[..n], p);
      if exists k :: IsLast(s[..n], p, k) {
        var k :| IsLast(s[..n], p, k);
        assert forall j :: 0 <= j < n ==> s[..n][j] == s[j];
        assert IsLast(s, p, k);
      } else {
        assert forall j :: 0 <= j < n ==> s[..n][j] == s[j];
      }
    } else if s != [] {
      assert IsLast(s, p, |s| - 1);
    }
  }

  lemma LastStep<T>(s: seq<T>, p: T -> bool, x: T, k: int)
    ensures p(x) ==> IsLast(s + [x], p, |s|)
    ensures !p(x) && IsLast(s, p, k) ==> IsLast(s + [x], p, k)
    ensures !p(x) && NoneIs(s, p) ==> NoneIs(s + [x], p)
  {
  }
}
