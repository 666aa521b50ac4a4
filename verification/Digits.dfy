/** Positional notation: the digits of a number in a base, and the number that digits denote. */
module Digits {
  import opened Arithmetic

  /** The digits of `v`, most significant first; none for zero. */
  function DigitsOf(v: nat, base: nat): (d: seq<nat>)
    requires base >= 2
    ensures forall i :: 0 <= i < |d| ==> d[i] < base
    ensures v > 0 ==> d != [] && d[0] > 0
  {
    if v == 0 then [] else DigitsOf(v / base, base) + [v % base]
  }

  /** The number that digits denote. */
  function ValueOf(d: seq<nat>, base: nat): nat {
    if d == [] then 0 else ValueOf(d[..|d| - 1], base) * base + d[|d| - 1]
  }

  function Zeros(n: nat): (d: seq<nat>)
    ensures |d| == n
  {
    seq(n, _ => 0)
  }

  lemma ValueOfNone(base: nat)
    ensures ValueOf([], base) == 0
  {
  }

  lemma {:induction false} ValueOfDigits(v: nat, base: nat)
    requires base >= 2
    ensures ValueOf(DigitsOf(v, base), base) == v
  {
    hide ValueOf;
    if v == 0 {
      ValueOfNone(base);
    } else {
      var d := DigitsOf(v / base, base);
      ValueOfDigits(v / base, base);
      ValueOfAppend(d, v % base, base);
      FromQuotient(v, base, ValueOf(d, base));
    }
  }

  /** Leading zeros do not matter. */
  lemma {:induction false} ValueOfPadded(n: nat, d: seq<nat>, base: nat)
    ensures ValueOf(Zeros(n) + d, base) == ValueOf(d, base)
  {
    var p := Zeros(n) + d;
    if d != [] {
      ValueOfPadded(n, d[..|d| - 1], base);
      assert p[..|p| - 1] == Zeros(n) + d[..|d| - 1];
    } else if n > 0 {
      ValueOfPadded(n - 1, [], base);
      assert p[..|p| - 1] == Zeros(n - 1) + [];
    }
  }

  /** One more digit at the end. */
  lemma ValueOfAppend(d: seq<nat>, x: nat, base: nat)
    ensures ValueOf(d + [x], base) == ValueOf(d, base) * base + x
  {
    assert (d + [x])[..|d|] == d;
  }

  function Pow(b: nat, n: nat): nat {
    if n == 0 then 1 else b * Pow(b, n - 1)
  }

  /** The sizes of machine words. */
  lemma PowersOfTwo()
    ensures Pow(2, 8) == 0x100 && Pow(2, 16) == 0x1_0000 && Pow(2, 32) == 0x1_0000_0000
    ensures Pow(2, 64) == 0x1_0000_0000_0000_0000
  {
    assert Pow(2, 4) == 16 by {
      assert Pow(2, 2) == 4;
      PowSum(2, 2, 2);
    }
    hide Pow;
    PowSum(2, 4, 4);
    PowSum(2, 8, 8);
    PowSum(2, 16, 16);
    PowSum(2, 32, 32);
  }

  lemma {:induction false} PowSum(b: nat, m: nat, n: nat)
    ensures Pow(b, m + n) == Pow(b, m) * Pow(b, n)
  {
    if m > 0 {
      PowSum(b, m - 1, n);
      MulAssociates(b, Pow(b, m - 1), Pow(b, n));
    }
  }
}
