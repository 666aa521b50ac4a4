/** Text to integers: from_chars_stream, read_integral_base_10, read_integral and read_int64 of
    seq/charconv.hpp. */
module Parsing {
  import opened Arithmetic
  import opened Digits
  import opened Texts

  // ----- What reading should find -----

  /** What a reader returns, where it leaves the cursor and whether the stream is then good. */
  datatype Parsed = Parsed(value: int, at: int, ok: bool)

  /** The characters of a stream: any but the one whose code is that of EOF. */
  predicate IsText(t: seq<int>) {
    forall i :: 0 <= i < |t| ==> -128 <= t[i] < 128 && t[i] != EOF
  }

  function SkipSpaces(t: seq<int>, i: nat): (j: nat)
    requires i <= |t|
    ensures i <= j <= |t| && (j < |t| ==> !IsSpace(t[j]))
    decreases |t| - i
  {
    if i < |t| && IsSpace(t[i]) then SkipSpaces(t, i + 1) else i
  }

  /** Where the run of digits that starts at `i` ends. */
  function DigitsEnd(t: seq<int>, i: nat, base: nat): (e: nat)
    requires i <= |t|
    ensures i <= e <= |t| && (e < |t| ==> ToDigit(t[e]) >= base)
    decreases |t| - i
  {
    if i < |t| && ToDigit(t[i]) < base then DigitsEnd(t, i + 1, base) else i
  }

  function DigitValues(t: seq<int>, i: nat, e: nat): (d: seq<nat>)
    requires i <= e <= |t|
    ensures |d| == e - i
  {
    seq<nat>(e - i, k requires 0 <= k < e - i => ToDigit(t[i + k]))
  }

  /** A number whose digits span `i` to `e`. */
  function Number(ty: IntType, t: seq<int>, i: nat, e: nat, base: nat, sign: int): Parsed
    requires i <= e <= |t|
  {
    Parsed(SignValue(ty, ty.Wrap(ValueOf(DigitValues(t, i, e), base)), sign), e, true)
  }

  /** What read_integral does at position `p` of a text. */
  function Parse(ty: IntType, t: seq<int>, p: nat, base: nat): Parsed
    requires p <= |t|
  {
    var s := SkipSpaces(t, p);
    if s == |t| then Parsed(0, s, false)
    else if t[s] == MINUS && !ty.signed then Parsed(0, p, false)
    else ParseDigits(ty, t, p, base, if t[s] == PLUS || t[s] == MINUS then s + 1 else s,
                     if t[s] == MINUS then -1 else 1, t[s] == PLUS || t[s] == MINUS)
  }

  /** The part behind the sign. In base 10 a sign needs no digit. In base 16 a digit other than zero
      before an `x` stands alone, and `0x` needs a digit. In a base other than 10 a digit alone at the
      end of the text is returned, but put back, and the stream is left bad. */
  function ParseDigits(ty: IntType, t: seq<int>, p: nat, base: nat, d: nat, sign: int, signed: bool): Parsed
    requires d <= |t|
  {
    var e := DigitsEnd(t, d, base);
    if base == 10 && (d < e || signed) then Number(ty, t, d, e, base, sign)
    else if d == e then Parsed(0, p, false)
    else if base == 16 && d + 1 < |t| && ToUpper(t[d + 1]) == ('X' as int) && ToDigit(t[d]) == 0 then
      var f := DigitsEnd(t, d + 2, 16);
      if f == d + 2 then Parsed(0, p, false) else Number(ty, t, d + 2, f, 16, sign)
    else if e == d + 1 == |t| then Number(ty, t, d, e, base, sign).(at := d, ok := false)
    else Number(ty, t, d, e, base, sign)
  }

  // ----- Two's complement -----

  lemma {:induction false} ModShift(x: int, m: nat, n: nat)
    requires n > 0
    ensures (x + m * n) % n == x % n
  {
    if m > 0 {
      ModShift(x, m - 1, n);
      ModStep(x + (m - 1) * n, n);
      assert x + m * n == x + (m - 1) * n + n;
    }
  }

  lemma ModStep(x: int, n: nat)
    requires n > 0
    ensures (x + n) % n == x % n
  {
    SameDivision(x / n + 1, x % n, (x + n) / n, (x + n) % n, n);
  }

  /** Numbers that differ by a multiple of the size convert to the same value. */
  lemma WrapShift(ty: IntType, x: int, y: int, m: int)
    requires ty.Size() > 0 && y == x + m * ty.Size()
    ensures ty.Wrap(y) == ty.Wrap(x)
  {
    if m >= 0 {
      ModShift(x, m, ty.Size());
    } else {
      assert x == y + -m * ty.Size();
      ModShift(y, -m, ty.Size());
    }
  }

  /** Conversion adds a multiple of the size. */
  lemma WrapAdds(ty: IntType, x: int) returns (m: int)
    ensures ty.Wrap(x) == x + m * ty.Size()
  {
    m := -(x / ty.Size());
    if ty.signed && x % ty.Size() >= ty.Size() / 2 {
      m := m - 1;
    }
  }

  /** Wrapping after each digit is the same as wrapping once. */
  lemma WrapMulAdd(ty: IntType, x: int, b: nat, d: int)
    ensures ty.Wrap(ty.Wrap(x) * b + d) == ty.Wrap(x * b + d)
  {
    var m := WrapAdds(ty, x);
    var n := ty.Size();
    Distribute(x, m, n, b, d);
    hide ty.Wrap;
    WrapShift(ty, x * b + d, ty.Wrap(x) * b + d, m * b);
  }

  lemma Distribute(x: int, m: int, n: int, b: int, d: int)
    ensures (x + m * n) * b + d == x * b + d + m * b * n
  {
    assert (x + m * n) * b == x * b + m * n * b;
    assert m * n * b == m * b * n;
  }

  lemma WrapNegate(ty: IntType, x: int)
    ensures ty.Wrap(-ty.Wrap(x)) == ty.Wrap(-x)
  {
    var m := WrapAdds(ty, x);
    WrapShift(ty, -x, -ty.Wrap(x), -m);
  }

  // ----- Reading -----

  /** from_chars_stream: a cursor over characters. */
  class Stream {
    const text: seq<int>
    var at: int
    var ok: bool

    predicate Valid()
      reads this
    {
      0 <= at <= |text| && IsText(text)
    }

    constructor (text: seq<int>)
      requires IsText(text)
      ensures Valid() && this.text == text && at == 0 && ok
    {
      this.text := text;
      at := 0;
      ok := true;
    }

    /** `c` is what reading at `i` gave. */
    predicate Got(c: int, i: int)
      reads this
    {
      0 <= i <= |text| && (if i < |text| then c == text[i] && at == i + 1 && ok else c == EOF && at == i && !ok)
    }

    /** getc: at the end it marks the stream bad and does not move. */
    method Getc() returns (c: int)
      requires Valid()
      modifies this
      ensures Valid() && (old(at) < |text| ==> ok == old(ok)) && (old(ok) || old(at) == |text| ==> Got(c, old(at)))
      ensures old(at) < |text| ==> c == text[old(at)] && at == old(at) + 1
    {
      if at != |text| {
        c := text[at];
        at := at + 1;
      } else {
        ok := false;
        c := EOF;
      }
    }

    method Back()
      modifies this
      ensures at == old(at) - 1 && ok == old(ok)
    {
      at := at - 1;
    }

    method Seek(pos: int)
      modifies this
      ensures at == pos && ok == old(ok)
    {
      at := pos;
    }

    /** set_state and reset. */
    method SetState(good: bool)
      modifies this
      ensures ok == good && at == old(at)
    {
      ok := good;
    }
  }

  /** The error exit of the readers. */
  method Fail(str: Stream, saved: int) returns (r: int)
    modifies str
    ensures r == 0 && str.at == saved && !str.ok
  {
    if str.ok {
      str.SetState(false);
    }
    str.Seek(saved);
    r := 0;
  }

  /** The loop that skips spaces. */
  method NextNonSpace(str: Stream) returns (first: int)
    requires str.Valid() && str.ok
    modifies str
    ensures str.Valid() && str.Got(first, SkipSpaces(str.text, old(str.at)))
  {
    ghost var i := str.at;
    first := str.Getc();
    while IsSpace(first)
      invariant str.Valid() && str.Got(first, i)
      invariant SkipSpaces(str.text, i) == SkipSpaces(str.text, old(str.at))
      decreases |str.text| - i
    {
      i := i + 1;
      first := str.Getc();
    }
  }

  lemma NextDigit(ty: IntType, t: seq<int>, d: nat, i: nat, base: nat)
    requires d <= i < |t|
    ensures ty.Wrap(ty.Wrap(ValueOf(DigitValues(t, d, i), base)) * base + ToDigit(t[i]))
         == ty.Wrap(ValueOf(DigitValues(t, d, i + 1), base))
  {
    var v := DigitValues(t, d, i);
    assert DigitValues(t, d, i + 1) == v + [ToDigit(t[i])];
    ValueOfAppend(v, ToDigit(t[i]), base);
    WrapMulAdd(ty, ValueOf(v, base), base, ToDigit(t[i]));
  }

  /** The digit loop of the readers, from the digit at `i` on, and what follows it. */
  method ReadDigits(str: Stream, ty: IntType, base: nat, x0: int, first0: int, ghost d: nat, ghost i0: nat)
    returns (x: int)
    requires str.Valid() && d <= i0 && str.Got(first0, i0) && 2 <= base <= 36
    requires x0 == ty.Wrap(ValueOf(DigitValues(str.text, d, i0), base))
    modifies str
    ensures str.Valid() && str.ok && str.at == DigitsEnd(str.text, i0, base)
    ensures x == ty.Wrap(ValueOf(DigitValues(str.text, d, DigitsEnd(str.text, i0, base)), base))
  {
    hide ty.Wrap, ValueOf, DigitValues;
    ghost var i := i0;
    var first := first0;
    x := x0;
    while ToDigit(first) < base
      invariant str.Valid() && i0 <= i && str.Got(first, i)
      invariant x == ty.Wrap(ValueOf(DigitValues(str.text, d, i), base))
      invariant DigitsEnd(str.text, i, base) == DigitsEnd(str.text, i0, base)
      decreases |str.text| - i
    {
      NextDigit(ty, str.text, d, i, base);
      x := ty.Wrap(x * base + ToDigit(first));
      first := str.Getc();
      i := i + 1;
    }
    if first != EOF {
      str.Back();
    }
    str.SetState(true);
  }

  /** The digit loop of read_integral_base_10. */
  method ReadDecimalDigits(str: Stream, ty: IntType, x0: int, first0: int, ghost d: nat, ghost i0: nat) returns (x: int)
    requires str.Valid() && d <= i0 && str.Got(first0, i0)
    requires x0 == ty.Wrap(ValueOf(DigitValues(str.text, d, i0), 10))
    modifies str
    ensures str.Valid() && str.ok && str.at == DigitsEnd(str.text, i0, 10)
    ensures x == ty.Wrap(ValueOf(DigitValues(str.text, d, DigitsEnd(str.text, i0, 10)), 10))
  {
    hide ty.Wrap, ValueOf, DigitValues, DigitCode, ToDigit;
    ghost var i := i0;
    var first := first0;
    x := x0;
    DecimalDigit(first);
    while IsDigit(first)
      invariant str.Valid() && i0 <= i && str.Got(first, i)
      invariant IsDigit(first) <==> ToDigit(first) < 10
      invariant IsDigit(first) ==> ToDigit(first) == first - ZERO
      invariant x == ty.Wrap(ValueOf(DigitValues(str.text, d, i), 10))
      invariant DigitsEnd(str.text, i, 10) == DigitsEnd(str.text, i0, 10)
      decreases |str.text| - i
    {
      NextDigit(ty, str.text, d, i, 10);
      x := ty.Wrap(x * 10 + (first - ZERO));
      first := str.Getc();
      i := i + 1;
      DecimalDigit(first);
    }
    if first != EOF {
      str.Back();
    }
    str.SetState(true);
  }

  /** read_integral_base_10. */
  method ReadIntegralBase10(str: Stream, ty: IntType) returns (r: int)
    requires str.Valid() && ty.Valid()
    modifies str
    ensures str.Valid() && Parsed(r, str.at, str.ok) == Parse(ty, str.text, old(str.at), 10)
  {
    hide ty.Wrap, ValueOf, DigitValues, DigitCode, ToDigit, SkipSpaces;
    str.SetState(true);
    var saved := str.at;
    var first := NextNonSpace(str);
    if first == EOF {
      return 0;
    }
    ghost var s := SkipSpaces(str.text, saved);
    ghost var d, i := s, s + 1;
    NoDigits(ty, str.text, s + 1, 10);
    FirstDigit(ty, str.text, s, 10);
    DecimalDigit(first);
    var x, sign := 0, 1;
    if first == PLUS {
      first := str.Getc();
      d := s + 1;
    } else if first == MINUS {
      if !ty.signed {
        r := Fail(str, saved);
        return;
      }
      sign := -1;
      first := str.Getc();
      d := s + 1;
    } else if !IsDigit(first) {
      r := Fail(str, saved);
      return;
    } else {
      x := ty.Wrap(first - ZERO);
      first := str.Getc();
    }
    x := ReadDecimalDigits(str, ty, x, first, d, i);
    r := SignValue(ty, x, sign);
  }

  /** The character at a position, or EOF. */
  function At(t: seq<int>, i: nat): int {
    if i < |t| then t[i] else EOF
  }

  /** What follows the first digit `d` in a base other than 10, by the next two characters. */
  function AfterDigit(ty: IntType, t: seq<int>, p: nat, base: nat, d: nat, sign: int): Parsed
    requires 2 <= base <= 36 && d < |t|
  {
    if base == 16 && ToUpper(At(t, d + 1)) == ('X' as int) then
      if ToDigit(t[d]) != 0 then Number(ty, t, d, d + 1, base, sign)
      else if ToDigit(At(t, d + 2)) >= base then Parsed(0, p, false)
      else NotDigits(EOF); Number(ty, t, d + 2, DigitsEnd(t, d + 3, base), base, sign)
    else if ToDigit(At(t, d + 1)) < base then NotDigits(EOF); Number(ty, t, d, DigitsEnd(t, d + 2, base), base, sign)
    else if d + 1 < |t| then Number(ty, t, d, d + 1, base, sign)
    else Number(ty, t, d, d + 1, base, sign).(at := d, ok := false)
  }

  lemma BySecondCharacter(ty: IntType, t: seq<int>, p: nat, base: nat, d: nat, sign: int, signed: bool)
    requires 2 <= base <= 36 && base != 10 && d <= |t|
    ensures ToDigit(At(t, d)) >= base ==> ParseDigits(ty, t, p, base, d, sign, signed) == Parsed(0, p, false)
    ensures ToDigit(At(t, d)) < base ==>
              d < |t| && ParseDigits(ty, t, p, base, d, sign, signed) == AfterDigit(ty, t, p, base, d, sign)
  {
    NotDigits(At(t, d + 1));
    hide ToDigit, ToUpper, Number;
    if d < |t| && ToDigit(t[d]) < base {
      assert DigitsEnd(t, d, base) == DigitsEnd(t, d + 1, base);
    }
  }

  lemma NotDigits(c: int)
    ensures ToDigit(EOF) > 36 && ToUpper(EOF) == EOF
    ensures ToUpper(c) == ('X' as int) ==> ToDigit(c) >= 16
  {
  }

  lemma HeldValue(ty: IntType, v: int)
    requires ty.Valid() && ty.Holds(v)
    ensures ty.Wrap(v) == v && ty.Wrap(-ty.Wrap(-v)) == v
  {
    hide ty.Wrap;
    HeldWraps(ty, v);
    WrapNegate(ty, -v);
  }

  lemma HeldWraps(ty: IntType, v: int)
    requires ty.Valid() && ty.Holds(v)
    ensures ty.Wrap(v) == v
  {
    var n := ty.Size();
    if v >= 0 {
      SmallRemainder(v, n);
    } else {
      ModStep(v, n);
      SmallRemainder(v + n, n);
    }
  }

  lemma SmallRemainder(x: nat, n: nat)
    requires x < n
    ensures x % n == x
  {
    SameDivision(x / n, x % n, 0, x, n);
  }

  lemma NoDigits(ty: IntType, t: seq<int>, d: nat, base: nat)
    requires d <= |t| && ty.Valid()
    ensures ty.Wrap(ValueOf(DigitValues(t, d, d), base)) == 0
  {
  }

  lemma FirstDigit(ty: IntType, t: seq<int>, d: nat, base: nat)
    requires d < |t|
    ensures ty.Wrap(ValueOf(DigitValues(t, d, d + 1), base)) == ty.Wrap(ToDigit(t[d]))
  {
    var v := DigitValues(t, d, d + 1);
    assert v == [] + [ToDigit(t[d])];
    ValueOfAppend([], ToDigit(t[d]), base);
  }

  /** read_integral. */
  method ReadIntegral(str: Stream, ty: IntType, base: nat) returns (r: int)
    requires str.Valid() && ty.Valid() && 2 <= base <= 36
    modifies str
    ensures str.Valid() && Parsed(r, str.at, str.ok) == Parse(ty, str.text, old(str.at), base)
  {
    if base == 10 {
      r := ReadIntegralBase10(str, ty);
      return;
    }
    hide ty.Wrap, ValueOf, DigitValues, SkipSpaces;
    str.SetState(true);
    var saved := str.at;
    var first := NextNonSpace(str);
    if first == EOF {
      return 0;
    }
    ghost var d := SkipSpaces(str.text, saved);
    var sign := 1;
    if first == PLUS {
      first := str.Getc();
      d := d + 1;
    } else if first == MINUS {
      if !ty.signed {
        r := Fail(str, saved);
        return;
      }
      sign := -1;
      first := str.Getc();
      d := d + 1;
    }
    r := ReadUnsigned(str, ty, base, first, sign, saved, d);
  }

  /** The part of read_integral behind the sign. */
  method ReadUnsigned(str: Stream, ty: IntType, base: nat, first0: int, sign: int, saved: nat, ghost d: nat)
    returns (r: int)
    requires str.Valid() && ty.Valid() && 2 <= base <= 36 && base != 10 && saved <= |str.text| && str.Got(first0, d)
    modifies str
    ensures str.Valid()
    ensures Parsed(r, str.at, str.ok) == ParseDigits(ty, str.text, saved, base, d, sign, true)
         == ParseDigits(ty, str.text, saved, base, d, sign, false)
  {
    hide ty.Wrap, ValueOf, DigitValues, ToDigit, ToUpper, ParseDigits;
    assert ToDigit(EOF) > 36 && ToUpper(EOF) == EOF by {
      NotDigits(EOF);
    }
    BySecondCharacter(ty, str.text, saved, base, d, sign, true);
    BySecondCharacter(ty, str.text, saved, base, d, sign, false);
    hide DigitsEnd;
    var first := first0;
    var val := ToDigit(first);
    if val >= base {
      r := Fail(str, saved);
      return;
    }
    FirstDigit(ty, str.text, d, base);
    HeldValue(ty, val);
    var x := ty.Wrap(val);
    first := str.Getc();
    ghost var start, i := d, d + 1;
    if base == 16 && ToUpper(first) == ('X' as int) {
      if x != 0 {
        str.Back();
        r := SignValue(ty, x, sign);
        return;
      }
      first := str.Getc();
      val := ToDigit(first);
      if val >= base {
        r := Fail(str, saved);
        return;
      }
      start, i := d + 2, d + 2;
      NoDigits(ty, str.text, d + 2, base);
    } else {
      val := ToDigit(first);
    }
    if val >= base {
      str.Back();
      r := SignValue(ty, x, sign);
      return;
    }
    NextDigit(ty, str.text, start, i, base);
    x := ty.Wrap(x * base + val);
    first := str.Getc();
    x := ReadDigits(str, ty, base, x, first, start, i + 1);
    r := SignValue(ty, x, sign);
  }

  // ----- Digits in pairs -----

  /** Reads a character as the code of a digit. */
  method GetDigit(str: Stream) returns (c: nat)
    requires str.Valid()
    modifies str
    ensures str.Valid() && str.at == Next(str.text, old(str.at))
    ensures c == DigitCode(At(str.text, old(str.at)))
  {
    var first := str.Getc();
    c := DigitCode(first);
  }

  function Next(t: seq<int>, i: nat): nat {
    if i < |t| then i + 1 else i
  }

  const EOF_CODE := 0xffff_ffcf

  /** The codes of digits are below ten, and only the end of the text has that of EOF. */
  lemma Codes(t: seq<int>, i: nat)
    requires IsText(t)
    ensures DigitCode(At(t, i)) == EOF_CODE <==> i >= |t|
    ensures DigitCode(At(t, i)) <= 9 <==> ToDigit(At(t, i)) < 10
    ensures DigitCode(At(t, i)) <= 9 ==> DigitCode(At(t, i)) == ToDigit(At(t, i))
  {
    DecimalDigit(At(t, i));
  }

  /** The number denoted by the digits from `p` to `q`. */
  function Decimal(t: seq<int>, p: nat, q: nat): nat
    requires p <= q <= |t|
  {
    ValueOf(DigitValues(t, p, q), 10)
  }

  lemma NextDecimal(t: seq<int>, p: nat, q: nat)
    requires p <= q < |t| && ToDigit(t[q]) < 10
    ensures Decimal(t, p, q + 1) == Decimal(t, p, q) * 10 + ToDigit(t[q])
    ensures DigitsEnd(t, q, 10) == DigitsEnd(t, q + 1, 10)
  {
    assert DigitValues(t, p, q + 1) == DigitValues(t, p, q) + [ToDigit(t[q])];
    ValueOfAppend(DigitValues(t, p, q), ToDigit(t[q]), 10);
  }

  /** Eighteen digits fit a 64-bit integer. */
  lemma {:induction false} EighteenDigits(n: nat)
    ensures n <= 18 ==> Pow(10, n) <= 1_000_000_000_000_000_000
    ensures Pow(10, n) * 10 == Pow(10, n + 1) && Pow(10, n) * 100 == Pow(10, n + 2)
  {
    if n <= 18 {
      assert Pow(10, 2) == 100;
      PowSum(10, 2, 2);
      PowSum(10, 4, 4);
      PowSum(10, 8, 8);
      PowSum(10, 16, 2);
      PowSum(10, n, 18 - n);
      PowPositive(10, 18 - n);
      MulLeq(1, Pow(10, 18 - n), Pow(10, n));
    }
  }

  lemma PowPositive(b: nat, n: nat)
    requires b > 0
    ensures Pow(b, n) >= 1
  {
    if n > 0 {
      PowPositive(b, n - 1);
      MulLeq(1, Pow(b, n - 1), b);
    }
  }

  /** Within 18 digits nothing wraps. */
  lemma Fits(z: nat, n: nat)
    requires z < Pow(10, n) && n <= 18
    ensures IntType(64, true).Wrap(z) == z
  {
    EighteenDigits(n);
    hide Pow;
    HeldValue(IntType(64, true), z);
  }

  lemma OneMoreDigit(x: nat, n: nat, y: nat)
    requires x < Pow(10, n) && y < 10
    ensures x * 10 + y < Pow(10, n + 1) && (n + 1 <= 18 ==> IntType(64, true).Wrap(x * 10 + y) == x * 10 + y)
  {
    EighteenDigits(n);
    hide *;
    if n + 1 <= 18 {
      Fits(x * 10 + y, n + 1);
    }
  }

  lemma TwoMoreDigits(x: nat, n: nat, y: nat)
    requires x < Pow(10, n) && y < 100
    ensures x * 100 + y < Pow(10, n + 2) && (n + 2 <= 18 ==> IntType(64, true).Wrap(x * 100 + y) == x * 100 + y)
  {
    EighteenDigits(n);
    hide *;
    if n + 2 <= 18 {
      Fits(x * 100 + y, n + 2);
    }
  }

  /** The two characters at `q` are read. */
  predicate Reading(str: Stream, q: nat, first: nat, second: nat)
    reads str
  {
    && str.Valid() && q <= |str.text| && str.at == Next(str.text, Next(str.text, q))
    && first == DigitCode(At(str.text, q)) && second == DigitCode(At(str.text, q + 1))
  }

  lemma NextPair(t: seq<int>, p: nat, q: nat)
    requires IsText(t) && p <= q <= |t| && DigitCode(At(t, q)) <= 9 && DigitCode(At(t, q + 1)) <= 9
    ensures q + 2 <= |t| && Next(t, Next(t, q)) == q + 2
    ensures DigitCode(At(t, q)) * 10 + DigitCode(At(t, q + 1)) < 100
    ensures Decimal(t, p, q + 2) == Decimal(t, p, q) * 100 + (DigitCode(At(t, q)) * 10 + DigitCode(At(t, q + 1)))
    ensures DigitsEnd(t, q, 10) == DigitsEnd(t, q + 2, 10) >= q + 2
  {
    Codes(t, q);
    Codes(t, q + 1);
    hide DigitCode, ToDigit;
    NextDecimal(t, p, q);
    NextDecimal(t, p, q + 1);
  }

  /** Reads the two characters at `q`. */
  method GetPair(str: Stream, ghost q: nat) returns (first: nat, second: nat)
    requires str.Valid() && str.at == q
    modifies str
    ensures Reading(str, q, first, second)
  {
    first := GetDigit(str);
    second := GetDigit(str);
  }

  /** What read_int64 knows while it reads pairs: `x` is the number denoted by `count` digits. */
  predicate PairsRead(t: seq<int>, p: nat, x: int, count: nat) {
    p + count <= |t| && x == Decimal(t, p, p + count) && 0 <= x < Pow(10, count)
    && DigitsEnd(t, p, 10) == DigitsEnd(t, p + count, 10)
  }

  lemma OnePair(t: seq<int>, p: nat, x: int, count: nat, first: nat, second: nat)
    requires IsText(t) && PairsRead(t, p, x, count) && first <= 9 && second <= 9
    requires first == DigitCode(At(t, p + count)) && second == DigitCode(At(t, p + count + 1))
    ensures p + count + 2 <= DigitsEnd(t, p, 10) && Next(t, Next(t, p + count)) == p + count + 2
    ensures count + 2 <= 18 ==> PairsRead(t, p, IntType(64, true).Wrap(x * 100 + (first * 10 + second)), count + 2)
  {
    hide DigitsEnd, DigitCode, At, Next, Pow, Decimal, IsText, IntType.Wrap;
    var q, y := p + count, first * 10 + second;
    NextPair(t, p, q);
    TwoMoreDigits(x, count, y);
  }

  /** The loop of read_int64 over pairs of digits. It gives up after twenty digits. */
  method ReadPairs(str: Stream, ghost p: nat, first0: nat, second0: nat)
    returns (x: int, count: nat, first: nat, second: nat)
    requires Reading(str, p, first0, second0)
    modifies str
    ensures str.Valid()
    ensures if count > 18 then p + count <= DigitsEnd(str.text, p, 10)
            else PairsRead(str.text, p, x, count) && Reading(str, p + count, first, second)
                 && !(first <= 9 && second <= 9)
  {
    var t := IntType(64, true);
    assert PairsRead(str.text, p, 0, 0);
    hide PairsRead, t.Wrap, DigitCode, At, Next, DigitsEnd, IsText;
    x, count, first, second := 0, 0, first0, second0;
    while first <= 9 && second <= 9
      invariant count <= 18 && Reading(str, p + count, first, second) && PairsRead(str.text, p, x, count)
      decreases |str.text| - count
    {
      OnePair(str.text, p, x, count, first, second);
      x := t.Wrap(x * 100 + (first * 10 + second));
      first, second := GetPair(str, p + count + 2);
      count := count + 2;
      if count > 18 {
        return;
      }
    }
  }

  /** read_int64: at most 18 digits, two at a time. */
  method ReadInt64(str: Stream) returns (r: int)
    requires str.Valid()
    modifies str
    ensures str.Valid()
    ensures var p, e := old(str.at), DigitsEnd(str.text, old(str.at), 10);
            && (e - p == 0 ==> r == 0 && !str.ok)
            && (1 <= e - p <= 18 ==> r == Decimal(str.text, p, e) && str.at == e && str.ok)
            && (e - p > 18 ==> r == -1 && !str.ok)
  {
    ghost var p := str.at;
    Codes(str.text, p);
    hide DigitCode, ToDigit, Decimal;
    var first := GetDigit(str);
    if first == EOF_CODE || !(first <= 9) {
      str.SetState(false);
      return 0;
    }
    var second := GetDigit(str);
    var x, count;
    x, count, first, second := ReadPairs(str, p, first, second);
    if count > 18 {
      str.SetState(false);
      return -1;
    }
    r := ReadLast(str, p, x, count, first, second);
  }

  /** The last digit of an odd number of digits, and what follows it. */
  method ReadLast(str: Stream, ghost p: nat, x0: int, count0: nat, first: nat, second: nat) returns (r: int)
    requires PairsRead(str.text, p, x0, count0) && count0 <= 18
    requires Reading(str, p + count0, first, second) && !(first <= 9 && second <= 9)
    modifies str
    ensures str.Valid()
    ensures var e := DigitsEnd(str.text, p, 10);
            if e - p <= 18 then r == Decimal(str.text, p, e) && str.at == e && str.ok else r == -1 && !str.ok
  {
    var t := IntType(64, true);
    ghost var q := p + count0;
    LastCodes(str.text, p, q);
    hide Pow, DigitCode, ToDigit, t.Wrap, Decimal, IsText, DigitsEnd;
    var x, count := x0, count0;
    if second != EOF_CODE {
      str.Back();
    }
    if first <= 9 {
      OneMoreDigit(x, count, first);
      x := t.Wrap(x * 10 + first);
      count := count + 1;
      if count > 18 {
        str.SetState(false);
        return -1;
      }
    } else if first != EOF_CODE {
      str.Back();
    }
    str.SetState(true);
    return x;
  }

  /** Where the digits end, by the codes of two characters. */
  lemma LastCodes(t: seq<int>, p: nat, q: nat)
    requires IsText(t) && p <= q <= |t| && DigitsEnd(t, p, 10) == DigitsEnd(t, q, 10)
    requires DigitCode(At(t, q)) > 9 || DigitCode(At(t, q + 1)) > 9
    ensures DigitsEnd(t, p, 10) == if DigitCode(At(t, q)) <= 9 then q + 1 else q
    ensures DigitCode(At(t, q)) == EOF_CODE <==> q == |t|
    ensures DigitCode(At(t, q + 1)) == EOF_CODE <==> q + 1 >= |t|
    ensures DigitCode(At(t, q)) <= 9 ==> q < |t| && Decimal(t, p, q + 1) == Decimal(t, p, q) * 10 + DigitCode(At(t, q))
  {
    Codes(t, q);
    Codes(t, q + 1);
    hide DigitCode, ToDigit;
    if DigitCode(At(t, q)) <= 9 {
      NextDecimal(t, p, q);
    }
  }
}
