/** Decimal digits of natural numbers, over any symbols for the digits, and as text. */
module Decimals {

  function Decimal<T>(v: nat, digit: int -> T): (s: seq<T>)
    ensures s != [] && (|s| >= 2 <==> v >= 10)
    ensures forall k :: 0 <= k < |s| ==> exists d :: 0 <= d < 10 && s[k] == digit(d)
  {
    if v < 10 then [digit(v)] else Decimal(v / 10, digit) + [digit(v % 10)]
  }

  /** With ten different symbols, different numbers have different digits. */
  lemma {:induction false} DecimalInjective<T(!new)>(a: nat, b: nat, digit: int -> T)
    requires forall c, d :: 0 <= c < 10 && 0 <= d < 10 && digit(c) == digit(d) ==> c == d
    requires Decimal(a, digit) == Decimal(b, digit)
    ensures a == b
  {
    var s := Decimal(a, digit);
    assert s[|s| - 1] == digit(a % 10) && s[|s| - 1] == digit(b % 10);
    if a >= 10 {
      assert Decimal(a / 10, digit) == s[..|s| - 1] == Decimal(b / 10, digit);
      DecimalInjective(a / 10, b / 10, digit);
    }
  }

  function Pow10(n: nat): nat {
    if n == 0 then 1 else 10 * Pow10(n - 1)
  }

  /** Decimals are short: `n` digits hold everything below 10^n. */
  lemma {:induction false} DecimalLength<T>(v: nat, n: nat, digit: int -> T)
    requires n > 0 && v < Pow10(n)
    ensures |Decimal(v, digit)| <= n
  {
    if v >= 10 {
      assert Pow10(1) == 10 * Pow10(0) == 10;
      DecimalLength(v / 10, n - 1, digit);
    }
  }

  // ---------- as text ----------

  function Digit(d: int): char {
    if 0 <= d < 10 then '0' + d as char else '0'
  }

  function Number(v: nat): (s: string)
    ensures s != [] && forall c :: c in s ==> '0' <= c <= '9'
  {
    Decimal(v, Digit)
  }

  /** Different numbers are written differently. */
  lemma NumberInjective(a: nat, b: nat)
    requires Number(a) == Number(b)
    ensures a == b
  {
    DecimalInjective(a, b, Digit);
  }
}
