/** What a numeral is, character by character, and the text of an integer in these terms. */
module Numerals {
  import opened Arithmetic
  import opened Digits
  import opened Texts

  /** The value of a character as a digit or letter; any other has one above every base. */
  function CharValue(c: int): nat {
    if '0' as int <= c <= '9' as int then c - '0' as int
    else if 'A' as int <= c <= 'Z' as int then c - 'A' as int + 10
    else if 'a' as int <= c <= 'z' as int then c - 'a' as int + 10
    else 36
  }

  /** The number that a numeral stands for, most significant character first. */
  function NumeralValue(t: seq<int>, base: nat): nat {
    if t == [] then 0 else NumeralValue(t[..|t| - 1], base) * base + CharValue(t[|t| - 1])
  }

  ghost predicate IsNumeral(t: seq<int>, base: nat) {
    t != [] && forall i :: 0 <= i < |t| ==> CharValue(t[i]) < base
  }

  /** Digits, and letters of one case. */
  ghost predicate InCase(t: seq<int>, upper: bool) {
    forall i :: 0 <= i < |t| ==>
      || '0' as int <= t[i] <= '9' as int
      || if upper then 'A' as int <= t[i] <= 'Z' as int else 'a' as int <= t[i] <= 'z' as int
  }

  // ----- The characters of digits -----

  lemma CharOfDigit(d: nat, upper: bool)
    requires d < 36
    ensures CharValue(DigitChar(d, upper)) == d && InCase([DigitChar(d, upper)], upper)
  {
  }

  lemma DigitOfCase(c: int, upper: bool)
    requires InCase([c], upper)
    ensures CharValue(c) < 36 && DigitChar(CharValue(c), upper) == c
  {
    assert [c][0] == c;
  }

  lemma {:induction false} ValueOfChars(d: seq<nat>, base: nat, upper: bool)
    requires base <= 36 && forall i :: 0 <= i < |d| ==> d[i] < base
    ensures NumeralValue(Chars(d, upper), base) == ValueOf(d, base) && InCase(Chars(d, upper), upper)
    ensures d != [] ==> IsNumeral(Chars(d, upper), base)
  {
    hide DigitChar, CharValue;
    var t := Chars(d, upper);
    forall i | 0 <= i < |d| ensures CharValue(t[i]) == d[i] && InCase([t[i]], upper) && [t[i]][0] == t[i] {
      CharOfDigit(d[i], upper);
    }
    if d != [] {
      ValueOfChars(d[..|d| - 1], base, upper);
      assert t[..|t| - 1] == Chars(d[..|d| - 1], upper);
    }
  }

  /** A numeral in one case consists of the characters of its digits. */
  lemma DigitsOfNumeral(t: seq<int>, base: nat, upper: bool) returns (d: seq<nat>)
    requires base <= 36 && IsNumeral(t, base) && InCase(t, upper)
    ensures t == Chars(d, upper) && |d| == |t| > 0 && forall i :: 0 <= i < |d| ==> d[i] < base
  {
    hide DigitChar, CharValue;
    d := seq(|t|, i requires 0 <= i < |t| => CharValue(t[i]));
    forall i | 0 <= i < |t| ensures t[i] == DigitChar(d[i], upper) {
      assert InCase([t[i]], upper);
      DigitOfCase(t[i], upper);
    }
  }

  /** Digits of a base are the digits of the number they denote, behind zeros. */
  lemma {:induction false} DigitsUnique(d: seq<nat>, base: nat) returns (n: nat)
    requires base >= 2 && forall i :: 0 <= i < |d| ==> d[i] < base
    ensures d == Zeros(n) + DigitsOf(ValueOf(d, base), base)
  {
    hide ValueOf, DigitsOf;
    if d == [] {
      n := 0;
      ValueOfNone(base);
      NoMoreDigits(base);
      assert Zeros(0) + [] == [];
    } else {
      var front, x := d[..|d| - 1], d[|d| - 1];
      n := DigitsUnique(front, base);
      assert d == front + [x];
      ValueOfAppend(front, x, base);
      var v, w := ValueOf(d, base), ValueOf(front, base);
      MoreDigits(v, w, x, base);
      if v == 0 {
        n := n + 1;
        assert d == Zeros(n);
        assert Zeros(n) + [] == Zeros(n);
      } else {
        assert Zeros(n) + DigitsOf(w, base) + [x] == Zeros(n) + (DigitsOf(w, base) + [x]);
      }
    }
  }

  lemma NoMoreDigits(base: nat)
    requires base >= 2
    ensures DigitsOf(0, base) == []
  {
  }

  lemma MoreDigits(v: nat, w: nat, x: nat, base: nat)
    requires base >= 2 && v == w * base + x && x < base
    ensures if v == 0 then DigitsOf(v, base) == DigitsOf(w, base) == [] && x == 0
            else DigitsOf(v, base) == DigitsOf(w, base) + [x]
  {
    Divides(v, w, x, base);
    hide DigitsOf;
    NoMoreDigits(base);
    if v > 0 {
      DigitsStep(v, base);
    }
  }

  lemma DigitsStep(v: nat, base: nat)
    requires base >= 2 && v > 0
    ensures DigitsOf(v, base) == DigitsOf(v / base, base) + [v % base]
  {
  }

  // ----- The text of an integer -----

  /** A text of `v`: a minus sign for a negative number, 0x where it is asked for and the number is not zero, and a
      numeral of the absolute value in the case asked for, as wide as asked for, without zeros in front beyond
      that. */
  ghost predicate IsTextOf(t: seq<int>, v: int, base: nat, fmt: Format, body: seq<int>) {
    && t == (if v < 0 then ['-' as int] else [])
            + (if base == 16 && fmt.hexPrefix && v != 0 then ['0' as int, 'x' as int] else []) + body
    && IsNumeral(body, base) && InCase(body, fmt.upperCase)
    && NumeralValue(body, base) == (if v < 0 then -v else v)
    && |body| >= fmt.minWidth && (|body| > fmt.minWidth && |body| > 1 ==> body[0] != '0' as int)
  }

  /** `Text` is the one text of a number, in every base and format. */
  lemma TextIff(t: seq<int>, v: int, base: nat, fmt: Format)
    requires 2 <= base <= 36
    ensures t == Text(v, base, fmt) <==> exists body :: IsTextOf(t, v, base, fmt, body)
  {
    if t == Text(v, base, fmt) {
      TextIsText(v, base, fmt);
    }
    if body :| IsTextOf(t, v, base, fmt, body) {
      OneText(t, v, base, fmt, body);
    }
  }

  lemma TextIsText(v: int, base: nat, fmt: Format)
    requires 2 <= base <= 36
    ensures var d := Padded(SomeDigits(Abs(v), base), fmt.minWidth);
            IsTextOf(Text(v, base, fmt), v, base, fmt, Chars(d, fmt.upperCase))
  {
    hide InCase, IsNumeral, NumeralValue, ValueOf, DigitsOf;
    var s := SomeDigits(Abs(v), base);
    var d := Padded(s, fmt.minWidth);
    SomeValue(Abs(v), base);
    ValueOfPadded(|d| - |s|, s, base);
    ValueOfChars(d, base, fmt.upperCase);
    if |d| > fmt.minWidth {
      assert Zeros(0) + s == s;
    }
  }

  /** The digits of a number denote it, and do not begin with zero, unless it is zero. */
  lemma SomeValue(v: nat, base: nat)
    requires base >= 2
    ensures var s := SomeDigits(v, base); ValueOf(s, base) == v && (|s| > 1 ==> s[0] != 0)
  {
    if v == 0 {
      ValueOfAppend([], 0, base);
      ValueOfNone(base);
      assert [] + [0] == [0];
    } else {
      ValueOfDigits(v, base);
    }
  }

  lemma OneText(t: seq<int>, v: int, base: nat, fmt: Format, body: seq<int>)
    requires 2 <= base <= 36 && IsTextOf(t, v, base, fmt, body)
    ensures t == Text(v, base, fmt)
  {
    hide InCase, IsNumeral, NumeralValue, ValueOf, DigitsOf;
    var d := DigitsOfNumeral(body, base, fmt.upperCase);
    ValueOfChars(d, base, fmt.upperCase);
    var n := DigitsUnique(d, base);
    FirstIsZero(d, fmt.upperCase);
    PaddedUnique(d, Abs(v), base, n, fmt.minWidth);
    hide Padded, SomeDigits;
  }

  lemma FirstIsZero(d: seq<nat>, upper: bool)
    ensures d != [] && d[0] == 0 ==> Chars(d, upper)[0] == '0' as int
  {
  }

  lemma PaddedUnique(d: seq<nat>, v: nat, base: nat, n: nat, w: nat)
    requires base >= 2 && d == Zeros(n) + DigitsOf(v, base) && d != []
    requires |d| >= w && (|d| > w && |d| > 1 ==> d[0] != 0)
    ensures d == Padded(SomeDigits(v, base), w)
  {
    var s := SomeDigits(v, base);
    if v == 0 {
      assert DigitsOf(v, base) == [];
      assert d == Zeros(n - 1) + [0];
      assert n > 1 ==> d[0] == 0;
    } else {
      assert n > 0 ==> d[0] == 0;
      assert |DigitsOf(v, base)| > 0;
    }
    assert d == Zeros(|d| - |s|) + s;
  }
}
