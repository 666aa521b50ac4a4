/** What the integer conversions of seq/charconv.hpp work on: integer types, characters and the text
    of a number. Characters are their codes, as a signed char holds them; -1 is EOF. */
module Texts {
  import opened Digits
  import opened Bits

  const EOF := -1
  const ZERO := '0' as int
  const MINUS := '-' as int
  const PLUS := '+' as int

  // ----- Integer types -----

  /** The built-in type that is printed or parsed. */
  datatype IntType = IntType(bits: nat, signed: bool) {

    predicate Valid() {
      bits == 8 || bits == 16 || bits == 32 || bits == 64
    }

    /** How many values the type has. */
    function Size(): nat {
      if bits == 8 then 0x100 else if bits == 16 then 0x1_0000 else if bits == 32 then B32 else B64
    }

    predicate Holds(v: int) {
      if signed then -(Size() / 2) <= v < Size() / 2 else 0 <= v < Size()
    }

    /** Conversion to the type: two's complement. */
    function Wrap(x: int): int {
      var m := x % Size();
      if signed && m >= Size() / 2 then m - Size() else m
    }

    /** The width of integer_abs_return, the unsigned type for absolute values. */
    function AbsBits(): nat {
      if !signed || bits == 64 then bits else 2 * bits
    }
  }

  /** sign_value. */
  function SignValue(ty: IntType, x: int, sign: int): int {
    if sign == -1 then ty.Wrap(-x) else x
  }

  // ----- Characters -----

  predicate IsSpace(c: int) {
    c == (' ' as int) || c == ('\t' as int) || c == ('\n' as int) || c == 11 || c == 12 || c == ('\r' as int)
  }

  /** The value of a character as an unsigned decimal digit; not below ten unless it is one. */
  function DigitCode(c: int): nat {
    (c - ZERO) % B32
  }

  predicate IsDigit(c: int) {
    DigitCode(c) <= 9
  }

  function ToUpper(c: int): int {
    if c >= ('a' as int) then c - 32 else c
  }

  /** to_digit_hex: the value of a digit or letter, and a value above every base otherwise. */
  function ToDigit(c: int): nat {
    var u := ToUpper(c);
    if u < (':' as int) && u > ('/' as int) then u - ZERO
    else if ('A' as int) <= u <= ('Z' as int) then u - ('A' as int) + 10
    else B32 - 1
  }

  function DigitChar(d: nat, upper: bool): int {
    if d < 10 then ZERO + d else (if upper then ('A' as int) else ('a' as int)) + (d - 10)
  }

  function Chars(d: seq<nat>, upper: bool): (t: seq<int>)
    ensures |t| == |d|
  {
    seq(|d|, i requires 0 <= i < |d| => DigitChar(d[i], upper))
  }

  lemma DigitOfChar(d: nat, upper: bool)
    requires d < 36
    ensures ToDigit(DigitChar(d, upper)) == d && DigitChar(d, upper) != EOF && !IsSpace(DigitChar(d, upper))
    ensures DigitChar(d, upper) != MINUS && DigitChar(d, upper) != PLUS
  {
  }

  lemma DecimalDigit(c: int)
    requires -128 <= c < 128
    ensures IsDigit(c) <==> ToDigit(c) < 10
    ensures IsDigit(c) ==> DigitCode(c) == ToDigit(c) == c - ZERO
  {
  }

  // ----- What printing should produce -----

  datatype Format = Format(minWidth: nat, hexPrefix: bool, upperCase: bool)

  function Abs(v: int): nat {
    if v < 0 then -v else v
  }

  /** The digits of an absolute value, zero having one. */
  function SomeDigits(v: nat, base: nat): (d: seq<nat>)
    requires base >= 2
    ensures d != [] && forall i :: 0 <= i < |d| ==> d[i] < base
  {
    if v == 0 then [0] else DigitsOf(v, base)
  }

  function Padded(d: seq<nat>, minWidth: nat): (p: seq<nat>) {
    Zeros(if minWidth > |d| then minWidth - |d| else 0) + d
  }

  function Prefix(v: int, base: nat, fmt: Format): seq<int> {
    if base == 16 && fmt.hexPrefix && v != 0 then [ZERO, ('x' as int)] else []
  }

  /** The text of an integer: sign, prefix, zeros and digits. */
  function Text(v: int, base: nat, fmt: Format): (t: seq<int>)
    requires base >= 2
  {
    (if v < 0 then [MINUS] else []) + Prefix(v, base, fmt)
    + Chars(Padded(SomeDigits(Abs(v), base), fmt.minWidth), fmt.upperCase)
  }
}
