/** Text primitives shared by the models: Go's byte-wise string order and ASCII case folding. */
module Text {

  /** Go's `<` on strings. */
  predicate Less(a: string, b: string)
    decreases |a|
  {
    if b == [] then false
    else if a == [] then true
    else if a[0] != b[0] then a[0] < b[0]
    else Less(a[1..], b[1..])
  }

  /** At the first place where they differ the smaller character comes first, and a text before what extends it. */
  lemma {:induction false} LessExactly(a: string, b: string)
    ensures Less(a, b) <==>
            (a < b || exists k :: 0 <= k < |a| && k < |b| && a[..k] == b[..k] && a[k] < b[k])
    decreases |a|
  {
    if a != [] && b != [] && a[0] == b[0] {
      var x, y := a[1..], b[1..];
      LessExactly(x, y);
      assert a == [a[0]] + x && b == [a[0]] + y;
      assert a < b <==> x < y;
      forall k | 0 <= k < |x| && k < |y| && x[..k] == y[..k] && x[k] < y[k]
        ensures a[..k + 1] == b[..k + 1] && a[k + 1] < b[k + 1]
      {
        assert a[..k + 1] == [a[0]] + x[..k] && b[..k + 1] == [a[0]] + y[..k];
      }
      forall k | 0 <= k < |a| && k < |b| && a[..k] == b[..k] && a[k] < b[k]
        ensures k > 0 && x[..k - 1] == y[..k - 1] && x[k - 1] < y[k - 1]
      {
        assert k > 0 ==> x[..k - 1] == a[..k][1..] && y[..k - 1] == b[..k][1..];
      }
      if exists k :: 0 <= k < |x| && k < |y| && x[..k] == y[..k] && x[k] < y[k] {
        var k :| 0 <= k < |x| && k < |y| && x[..k] == y[..k] && x[k] < y[k];
        assert a[..k + 1] == b[..k + 1] && a[k + 1] < b[k + 1];
      }
    } else if a != [] && b != [] {
      assert a[..0] == b[..0];
      assert !(a < b);
      forall k | 0 < k < |a| && k < |b|
        ensures a[..k] != b[..k]
      {
        assert a[..k][0] == a[0] && b[..k][0] == b[0];
      }
    }
  }

  lemma {:induction false} LessIrreflexive(a: string)
    ensures !Less(a, a)
    decreases |a|
  {
    if a != [] {
      LessIrreflexive(a[1..]);
    }
  }

  lemma {:induction false} LessTransitive(a: string, b: string, c: string)
    requires Less(a, b) && Less(b, c)
    ensures Less(a, c)
    decreases |a|
  {
    if a != [] && a[0] == b[0] == c[0] {
      LessTransitive(a[1..], b[1..], c[1..]);
    }
  }

  /** Any two different strings are ordered one way. */
  lemma {:induction false} LessTotal(a: string, b: string)
    ensures Less(a, b) || Less(b, a) || a == b
    decreases |a|
  {
    if a != [] && b != [] && a[0] == b[0] {
      LessTotal(a[1..], b[1..]);
      assert a == [a[0]] + a[1..] && b == [b[0]] + b[1..];
    }
  }

  /** `strings.ToLower` on ASCII letters; no other letter folds to a letter of the names compared here. */
  function Lower(s: string): string {
    seq(|s|, k requires 0 <= k < |s| => if 'A' <= s[k] <= 'Z' then s[k] - 'A' + 'a' else s[k])
  }

  const CAPITALS := "ABCDEFGHIJKLMNOPQRSTUVWXYZ"
  const SMALL := "abcdefghijklmnopqrstuvwxyz"

  /** A capital becomes its small letter, everything else stays. */
  lemma LowerExactly(s: string, k: nat)
    requires k < |s|
    ensures |Lower(s)| == |s|
    ensures forall i :: 0 <= i < 26 && s[k] == CAPITALS[i] ==> Lower(s)[k] == SMALL[i]
    ensures s[k] !in CAPITALS ==> Lower(s)[k] == s[k]
  {
    assert forall i :: 0 <= i < 26 ==> CAPITALS[i] as int == 65 + i && SMALL[i] as int == 97 + i;
    if 'A' <= s[k] <= 'Z' {
      assert CAPITALS[s[k] as int - 65] == s[k];
    }
  }
}
