/** Integers to text: write_integral and write_integer_generic of seq/charconv.hpp. */
module Printing {
  import opened Arithmetic
  import opened Digits
  import opened Bits
  import opened Ranges
  import opened Texts

  /** Pairs of decimal digits, the lower digit first. */
  const DECIMAL_TABLE :=
    "00102030405060708090" + "01112131415161718191"
    + "02122232425262728292" + "03132333435363738393"
    + "04142434445464748494" + "05152535455565758595"
    + "06162636465666768696" + "07172737475767778797"
    + "08182838485868788898" + "09192939495969798999"

  /** The bounded output of to_chars. */
  class CharRange {
    const buffer: array<int>
    const end: nat
    var pos: nat

    constructor (buffer: array<int>, start: nat, end: nat)
      requires start <= end <= buffer.Length
      ensures this.buffer == buffer && this.end == end && pos == start
    {
      this.buffer := buffer;
      this.end := end;
      pos := start;
    }

    /** add_size: claims `count` characters; advances even if there is no room. */
    method AddSize(count: nat) returns (ok: bool, at: nat)
      modifies this
      ensures pos == old(pos) + count && at == old(pos) && ok == (pos <= end)
    {
      at := pos;
      pos := pos + count;
      ok := pos <= end;
    }
  }

  /** How to_chars reports its success: the end of the text, or the end of the range. */
  datatype ToCharsResult = ToCharsResult(ptr: nat, ok: bool)

  /** What printing `t` must do to the range: write it there if it fits, and otherwise nothing. */
  twostate predicate Written(range: CharRange, t: seq<int>, r: ToCharsResult)
    reads range, range.buffer
  {
    && range.pos == old(range.pos) + |t| && range.end <= range.buffer.Length
    && r.ok == (old(range.pos) + |t| <= range.end)
    && (r.ok ==> r.ptr == range.pos && range.buffer[..] == Splice(old(range.buffer[..]), old(range.pos), t))
    && (!r.ok ==> r.ptr == range.end && range.buffer[..] == old(range.buffer[..]))
  }

  /** One more digit in front. */
  lemma CharsInFront(d: nat, rest: seq<nat>, upper: bool)
    ensures Chars([d] + rest, upper) == [DigitChar(d, upper)] + Chars(rest, upper)
  {
  }

  lemma ZeroInFront(n: nat, d: seq<nat>)
    ensures Zeros(n + 1) + d == [0] + (Zeros(n) + d)
  {
  }

  lemma {:induction false} DigitsBound(v: nat, base: nat, b: nat, n: nat)
    requires base >= b >= 2 && v < Pow(b, n)
    ensures |DigitsOf(v, base)| <= n
  {
    if v > 0 {
      LastDigit(v, base);
      QuotientBound(v, base, b, Pow(b, n - 1));
      DigitsBound(v / base, base, b, n - 1);
    }
  }

  lemma QuotientBound(v: nat, base: nat, b: nat, m: nat)
    requires base >= b >= 2 && v < b * m
    ensures v / base < m
  {
    var q := v / base;
    DivMod(v, base);
    MulLeq(b, base, q);
    if q >= m {
      MulLeq(m, q, b);
    }
  }

  lemma PowersOf64Bits()
    ensures Pow(2, 64) == Pow(16, 16) == B64
  {
    PowersOfTwo();
    assert Pow(16, 2) == 0x100;
    PowSum(16, 2, 2);
    PowSum(16, 4, 4);
    PowSum(16, 8, 8);
  }

  lemma LastDigit(v: nat, base: nat)
    requires base >= 2 && v > 0
    ensures 0 <= v / base < v && 0 <= v % base < base
    ensures DigitsOf(v, base) == DigitsOf(v / base, base) + [v % base]
  {
    DivMod(v, base);
    if v / base > 0 {
      MulLeq(2, base, v / base);
    }
  }

  /** The loop of write_integer_generic that writes digits from the end of the scratch space. */
  method WriteDigits(tmp: array<int>, v: nat, base: nat, upper: bool) returns (index: nat)
    requires tmp.Length == 66 && 2 <= base <= 36 && 0 < v < B64
    modifies tmp
    ensures index == 65 - |DigitsOf(v, base)| && 1 <= index && tmp[index..65] == Chars(DigitsOf(v, base), upper)
  {
    index := 65;
    var val: nat := v;
    ghost var suffix := [];
    PowersOf64Bits();
    DigitsBound(v, base, 2, 64);
    assert DigitsOf(0, base) == [];
    hide DigitsOf, Chars;
    assert Chars([], upper) == [];
    while val > 0
      invariant DigitsOf(v, base) == DigitsOf(val, base) + suffix
      invariant index == 65 - |suffix| && tmp[index..65] == Chars(suffix, upper)
      decreases val
    {
      LastDigit(val, base);
      var next: nat := val / base;
      var rem: nat := val % base;
      CharsInFront(rem, suffix, upper);
      suffix := [rem] + suffix;
      index := index - 1;
      tmp[index] := DigitChar(rem, upper);
      val := next;
    }
    assert suffix == DigitsOf(v, base);
  }

  // ----- The scratch space -----

  const SCRATCH := 65

  function Min(x: nat, y: nat): nat {
    if x < y then x else y
  }

  /** The format that write_integer_generic follows: zeros stop at the beginning of the scratch space. */
  function Cut(value: int, fmt: Format): Format {
    if value == 0 then fmt else fmt.(minWidth := Min(fmt.minWidth, SCRATCH))
  }

  /** Whether everything that is written to the scratch space has room there; zero does not go
      through it. */
  predicate FitsScratch(value: int, base: nat, fmt: Format)
    requires base >= 2
  {
    var digits := |SomeDigits(Abs(value), base)|;
    var padded := if digits < Min(fmt.minWidth, SCRATCH) then Min(fmt.minWidth, SCRATCH) else digits;
    value == 0 || (if value < 0 then 1 else 0) + |Prefix(value, base, fmt)| + padded <= SCRATCH
  }

  /** Everything has room if the text, with a width of at most 65, has at most 65 characters. */
  lemma FitsScratchIff(value: int, base: nat, fmt: Format)
    requires base >= 2
    ensures FitsScratch(value, base, fmt) <==>
            value == 0 || |Text(value, base, fmt.(minWidth := if fmt.minWidth > 65 then 65 else fmt.minWidth))| <= 65
  {
    hide SomeDigits;
  }

  /** The text is complete, if it has room at all, exactly for widths up to that of the scratch space. */
  lemma CompleteIff(ty: IntType, value: int, base: nat, fmt: Format)
    requires ty.Valid() && ty.Holds(value) && 2 <= base <= 36
    ensures Text(value, base, Cut(value, fmt)) == Text(value, base, fmt) <==> value == 0 || fmt.minWidth <= SCRATCH
    ensures value != 0 && fmt.minWidth >= 65 ==>
              |Text(value, base, Cut(value, fmt))| == (if value < 0 then 1 else 0) + |Prefix(value, base, fmt)| + 65
  {
    if value != 0 {
      AtMost64Digits(Abs(value), base);
      if fmt.minWidth > SCRATCH {
        assert |Text(value, base, Cut(value, fmt))| < |Text(value, base, fmt)|;
      }
    }
  }

  /** Up to a width of 62, every value has room in every base. */
  lemma NarrowFits(ty: IntType, value: int, base: nat, fmt: Format)
    requires ty.Valid() && ty.Holds(value) && 2 <= base <= 36 && fmt.minWidth <= 62
    ensures FitsScratch(value, base, fmt)
  {
    if value != 0 {
      AtMost64Digits(Abs(value), base);
      HexDigitsBound(Abs(value));
    }
  }

  /** From a width of 63 on, a negative number with a prefix has no room. */
  lemma WideDoesNotFit(fmt: Format)
    requires fmt.minWidth >= 63 && fmt.hexPrefix
    ensures !FitsScratch(-1, 16, fmt)
  {
  }

  lemma AtMost64Digits(v: nat, base: nat)
    requires 0 < v < B64 && base >= 2
    ensures |DigitsOf(v, base)| <= 64
  {
    PowersOf64Bits();
    DigitsBound(v, base, 2, 64);
  }

  /** The zero padding of write_integer_generic. */
  method WriteZeros(tmp: array<int>, index0: nat, width: nat, upper: bool, ghost d: seq<nat>) returns (index: nat)
    requires tmp.Length == 66 && index0 == SCRATCH - |d| && 1 <= index0 && tmp[index0..65] == Chars(d, upper)
    modifies tmp
    ensures index == SCRATCH - |Padded(d, Min(width, SCRATCH))|
    ensures tmp[index..65] == Chars(Padded(d, Min(width, SCRATCH)), upper)
  {
    hide Chars;
    index := index0;
    var minWidth: int := width;
    var count := 65 - index;
    ghost var n := 0;
    assert Zeros(0) + d == d;
    while minWidth > count && index > 0
      invariant index == 65 - |d| - n && minWidth == width - n && (n > 0 ==> minWidth >= count)
      invariant tmp[index..65] == Chars(Zeros(n) + d, upper)
      decreases minWidth
    {
      minWidth := minWidth - 1;
      ZeroInFront(n, d);
      CharsInFront(0, Zeros(n) + d, upper);
      index := index - 1;
      tmp[index] := ZERO;
      n := n + 1;
    }
  }

  /** Copies a text into the range, if it fits. */
  method Emit(range: CharRange, t: seq<int>) returns (r: ToCharsResult)
    requires range.end <= range.buffer.Length
    modifies range, range.buffer
    ensures Written(range, t, r)
  {
    var ok, dst := range.AddSize(|t|);
    if !ok {
      return ToCharsResult(range.end, false);
    }
    forall k | 0 <= k < |t| {
      range.buffer[dst + k] := t[k];
    }
    r := ToCharsResult(dst + |t|, true);
  }

  /** write_integer_generic: any base from 2 to 36. It stops where a prefix or a sign has no room in
      the scratch space any more. */
  method WriteIntegerGeneric(range: CharRange, ty: IntType, value: int, base: nat, fmt: Format)
    returns (inScratch: bool, r: ToCharsResult)
    requires ty.Valid() && ty.Holds(value) && 2 <= base <= 36 && range.end <= range.buffer.Length
    modifies range, range.buffer
    ensures inScratch == FitsScratch(value, base, fmt)
    ensures inScratch ==> Written(range, Text(value, base, Cut(value, fmt)), r)
    ensures !inScratch ==> range.pos == old(range.pos) && range.buffer[..] == old(range.buffer[..])
  {
    if value == 0 {
      var size := if fmt.minWidth != 0 then fmt.minWidth else 1;
      ZeroText(base, fmt, size);
      r := Emit(range, seq(size, _ => ZERO));
      return true, r;
    }
    var tmp := new int[66];
    assert range.buffer[..] == old(range.buffer[..]);
    ghost var d := SomeDigits(Abs(value), base);
    var neg := ty.signed && value < 0;
    var val := if neg then -value else value;
    var index := WriteDigits(tmp, val, base, fmt.upperCase);
    index := WriteZeros(tmp, index, fmt.minWidth, fmt.upperCase, d);
    hide Chars, SomeDigits;
    inScratch, index := WriteMarks(tmp, index, base == 16 && fmt.hexPrefix, ty.signed && neg);
    if !inScratch {
      return false, ToCharsResult(range.end, false);
    }
    assert tmp[index..65] == Text(value, base, Cut(value, fmt));
    r := Emit(range, tmp[index..65]);
  }

  /** The prefix and the sign, while there is room for them. */
  method WriteMarks(tmp: array<int>, index0: nat, hex: bool, neg: bool) returns (ok: bool, index: nat)
    requires tmp.Length == 66 && index0 <= 65
    modifies tmp
    ensures ok == ((if hex then 2 else 0) + (if neg then 1 else 0) <= index0)
    ensures ok ==> index <= 65
    ensures ok ==>
              tmp[index..65]
              == (if neg then [MINUS] else []) + (if hex then [ZERO, 'x' as int] else []) + old(tmp[index0..65])
  {
    index := index0;
    if hex {
      if index < 1 {
        return false, index;
      }
      index := index - 1;
      tmp[index] := 'x' as int;
      if index < 1 {
        return false, index;
      }
      index := index - 1;
      tmp[index] := '0' as int;
    }
    if neg {
      if index < 1 {
        return false, index;
      }
      index := index - 1;
      tmp[index] := MINUS;
    }
    ok := true;
  }

  lemma ZeroText(base: nat, fmt: Format, size: nat)
    requires base >= 2 && size == if fmt.minWidth != 0 then fmt.minWidth else 1
    ensures Text(0, base, fmt) == seq(size, _ => ZERO)
  {
    var t := Chars(Padded([0], fmt.minWidth), fmt.upperCase);
    assert [] + [] + t == t;
    assert t == seq(size, _ => ZERO);
  }

  /** At most sixteen hexadecimal digits. */
  lemma HexDigitsBound(v: nat)
    requires v < B64
    ensures |DigitsOf(v, 16)| <= 16
  {
    PowersOf64Bits();
    DigitsBound(v, 16, 16, 16);
  }

  /** The pairs with the same higher digit, which comes second. */
  function TableRow(t: char): (row: string)
    ensures |row| == 20
  {
    ['0', t, '1', t, '2', t, '3', t, '4', t, '5', t, '6', t, '7', t, '8', t, '9', t]
  }

  lemma RowPair(t: char, u: nat)
    requires u < 10
    ensures TableRow(t)[2 * u] as int == ZERO + u && TableRow(t)[2 * u + 1] == t
  {
    assert u == 0 || u == 1 || u == 2 || u == 3 || u == 4 || u == 5 || u == 6 || u == 7 || u == 8 || u == 9;
  }

  lemma TableRows()
    ensures DECIMAL_TABLE == TableRow('0') + TableRow('1') + TableRow('2') + TableRow('3') + TableRow('4')
                             + TableRow('5') + TableRow('6') + TableRow('7') + TableRow('8') + TableRow('9')
  {
  }

  lemma PairInTable(t: nat, j: nat)
    requires t < 10 && j < 20
    ensures |DECIMAL_TABLE| == 200 && DECIMAL_TABLE[20 * t + j] == TableRow((ZERO + t) as char)[j]
  {
    hide TableRow, DECIMAL_TABLE;
    TableRows();
    assert t == 0 || t == 1 || t == 2 || t == 3 || t == 4 || t == 5 || t == 6 || t == 7 || t == 8 || t == 9;
  }

  /** What the table says of a pair of digits. */
  lemma TablePair(k: nat)
    requires k < 100
    ensures |DECIMAL_TABLE| == 200
    ensures DECIMAL_TABLE[2 * k] as int == ZERO + k % 10 && DECIMAL_TABLE[2 * k + 1] as int == ZERO + k / 10
  {
    hide TableRow, DECIMAL_TABLE;
    var t, u := k / 10, k % 10;
    RowPair((ZERO + t) as char, u);
    PairInTable(t, 2 * u);
    PairInTable(t, 2 * u + 1);
  }

  /** Two digits at once. */
  lemma LastTwoDigits(v: nat, suffix: seq<nat>)
    requires v >= 100
    ensures SomeDigits(v, 10) + suffix == SomeDigits(v / 100, 10) + ([v % 100 / 10, v % 100 % 10] + suffix)
    ensures |SomeDigits(v, 10)| > 2
  {
    LastDigit(v, 10);
    LastDigit(v / 10, 10);
    hide DigitsOf;
    assert v / 10 / 10 == v / 100 && v / 10 % 10 == v % 100 / 10 && v % 10 == v % 100 % 10;
    assert SomeDigits(v, 10) == SomeDigits(v / 100, 10) + [v % 100 / 10, v % 100 % 10];
  }

  /** Writes a pair of digits from the table in front of `suffix`, which starts at `at`. */
  method WritePair(a: array<int>, at: nat, pair: nat, ghost was: seq<int>, ghost suffix: seq<nat>)
    requires pair < 100 && 2 <= at <= a.Length && at + |suffix| <= |was|
    requires a[..] == Splice(was, at, Chars(suffix, false))
    modifies a
    ensures a[..] == Splice(was, at - 2, Chars([pair / 10, pair % 10] + suffix, false))
  {
    hide Splice, Chars, DECIMAL_TABLE;
    ghost var d, e, s := pair / 10, pair % 10, a[..];
    TablePair(pair);
    PairInFront(was, at, suffix, d, e);
    var i := pair * 2;
    a[at - 1] := DECIMAL_TABLE[i] as int;
    assert a[..] == s[at - 1 := ZERO + e];
    a[at - 2] := DECIMAL_TABLE[i + 1] as int;
    assert a[..] == s[at - 1 := ZERO + e][at - 2 := ZERO + d];
  }

  lemma PairInFront(was: seq<int>, at: nat, suffix: seq<nat>, d: nat, e: nat)
    requires 2 <= at && at + |suffix| <= |was| && d < 10 && e < 10
    ensures Splice(was, at, Chars(suffix, false))[at - 1 := ZERO + e][at - 2 := ZERO + d]
         == Splice(was, at - 2, Chars([d, e] + suffix, false))
  {
    WrittenInFront(was, at, suffix, e);
    WrittenInFront(was, at - 1, [e] + suffix, d);
    hide Splice, Chars;
    assert [d, e] + suffix == [d] + ([e] + suffix);
  }

  /** The digit loop of write_integral: fills the range backwards from `res`, two digits at a time. */
  method WriteDecimal(a: array<int>, res: nat, v: nat) returns (at: nat)
    requires |SomeDigits(v, 10)| <= res <= a.Length
    modifies a
    ensures at == res - |SomeDigits(v, 10)|
    ensures a[..] == Splice(old(a[..]), at, Chars(SomeDigits(v, 10), false))
  {
    hide Splice, Chars, SomeDigits;
    ghost var was, suffix: seq<nat> := a[..], [];
    var value: nat := v;
    at := res;
    NoText(was, res);
    assert SomeDigits(value, 10) + [] == SomeDigits(value, 10);
    while value >= 100
      invariant SomeDigits(v, 10) == SomeDigits(value, 10) + suffix
      invariant at == res - |suffix| && a[..] == Splice(was, at, Chars(suffix, false))
    {
      LastTwoDigits(value, suffix);
      WritePair(a, at, value % 100, was, suffix);
      suffix := [value % 100 / 10, value % 100 % 10] + suffix;
      value := value / 100;
      at := at - 2;
    }
    FewDigits(value);
    if value < 10 {
      WrittenInFront(was, at, suffix, value);
      at := at - 1;
      a[at] := value + ZERO;
    } else {
      WritePair(a, at, value, was, suffix);
      at := at - 2;
    }
  }

  lemma NoText(was: seq<int>, at: nat)
    requires at <= |was|
    ensures Splice(was, at, Chars([], false)) == was
  {
  }

  /** The zeros that write_integral puts in front of the digits. */
  method FillZeros(a: array<int>, start: nat, at0: nat, ghost was: seq<int>, ghost d: seq<nat>)
    requires start <= at0 && at0 + |d| <= |was| == a.Length && a[..] == Splice(was, at0, Chars(d, false))
    modifies a
    ensures a[..] == Splice(was, start, Chars(Zeros(at0 - start) + d, false))
  {
    hide Splice, Chars, Zeros;
    var at := at0;
    assert Zeros(0) + d == d;
    while at > start
      invariant start <= at <= at0
      invariant a[..] == Splice(was, at, Chars(Zeros(at0 - at) + d, false))
    {
      ZeroInFront(at0 - at, d);
      WrittenInFront(was, at, Zeros(at0 - at) + d, 0);
      at := at - 1;
      a[at] := ZERO;
    }
  }

  lemma FewDigits(v: nat)
    requires v < 100
    ensures SomeDigits(v, 10) == if v < 10 then [v] else [v / 10, v % 10]
  {
    if v >= 10 {
      assert DigitsOf(v / 10, 10) == DigitsOf(0, 10) + [v / 10];
    } else if v > 0 {
      assert DigitsOf(v, 10) == DigitsOf(0, 10) + [v];
    }
  }

  lemma WrittenInFront(was: seq<int>, at: nat, suffix: seq<nat>, d: nat)
    requires 0 < at && at + |suffix| <= |was| && d < 10
    ensures Splice(was, at, Chars(suffix, false))[at - 1 := ZERO + d] == Splice(was, at - 1, Chars([d] + suffix, false))
  {
    CharsInFront(d, suffix, false);
  }

  /** How long a decimal text is. */
  lemma DecimalText(value: int, fmt: Format, digit: nat)
    requires var n := |SomeDigits(Abs(value), 10)|;
             digit == (if value < 0 then 1 else 0) + (if fmt.minWidth > n then fmt.minWidth else n)
    ensures |Text(value, 10, fmt)| == digit
  {
  }

  /** The digits, zeros and sign written one after another are the text. */
  lemma PaddedText(value: int, fmt: Format, n: nat)
    requires n + |SomeDigits(Abs(value), 10)| + (if value < 0 then 1 else 0) == |Text(value, 10, fmt)|
    ensures Text(value, 10, fmt) == if value < 0 then [MINUS] + Chars(Zeros(n) + SomeDigits(Abs(value), 10), false)
                                    else Chars(Zeros(n) + SomeDigits(Abs(value), 10), false)
  {
    var p := Padded(SomeDigits(Abs(value), 10), fmt.minWidth);
    hide SomeDigits;
    assert p == Zeros(n) + SomeDigits(Abs(value), 10);
    assert Chars(p, fmt.upperCase) == Chars(p, false);
    var sign := if value < 0 then [MINUS] else [];
    assert sign + [] + Chars(p, false) == if value < 0 then [MINUS] + Chars(p, false) else Chars(p, false);
  }

  lemma SignInFront(was: seq<int>, at: nat, t: seq<int>)
    requires at + 1 + |t| <= |was|
    ensures Splice(was, at + 1, t)[at := MINUS] == Splice(was, at, [MINUS] + t)
  {
  }

  /** The part of write_integral that fills the space claimed for a decimal text. */
  method WriteDecimalText(a: array<int>, buffer: nat, digit: nat, neg: nat, abs: nat, ghost value: int,
                          ghost fmt: Format)
    requires abs == Abs(value) && neg == (if value < 0 then 1 else 0)
    requires digit == |Text(value, 10, fmt)| && buffer + digit <= a.Length
    modifies a
    ensures a[..] == Splice(old(a[..]), buffer, Text(value, 10, fmt))
  {
    ghost var was, d := a[..], SomeDigits(Abs(value), 10);
    DigitsFit(value, fmt);
    hide *;
    var start := buffer + neg;
    var res := buffer + digit;
    var at := WriteDecimal(a, res, abs);
    FillZeros(a, start, at, was, d);
    PaddedText(value, fmt, at - start);
    if neg == 1 {
      SignInFront(was, buffer, Chars(Zeros(at - start) + d, false));
      a[start - 1] := MINUS;
    }
  }

  lemma DigitsFit(value: int, fmt: Format)
    ensures |SomeDigits(Abs(value), 10)| + (if value < 0 then 1 else 0) <= |Text(value, 10, fmt)|
  {
  }

  /** write_integral. In base 10 it does not need the scratch space. */
  method WriteIntegral(range: CharRange, ty: IntType, value: int, base: nat, fmt: Format)
    returns (inScratch: bool, r: ToCharsResult)
    requires ty.Valid() && ty.Holds(value) && 2 <= base <= 36 && range.end <= range.buffer.Length
    modifies range, range.buffer
    ensures inScratch == (base == 10 || FitsScratch(value, base, fmt))
    ensures inScratch ==> Written(range, Text(value, base, if base == 10 then fmt else Cut(value, fmt)), r)
    ensures !inScratch ==> range.pos == old(range.pos) && range.buffer[..] == old(range.buffer[..])
  {
    if base != 10 {
      inScratch, r := WriteIntegerGeneric(range, ty, value, base, fmt);
      return;
    }
    inScratch := true;
    var neg := if ty.signed && value < 0 then 1 else 0;
    var abs: nat := if ty.signed && value < 0 then -value else value;
    var digit := CountDigits(ty.AbsBits(), abs);
    CountDigitsCounts(ty.AbsBits(), abs);
    if fmt.minWidth > digit {
      digit := fmt.minWidth;
    }
    if ty.signed {
      digit := digit + neg;
    }
    DecimalText(value, fmt, digit);
    hide Text, Splice, CountDigits, SomeDigits;
    var ok, buffer := range.AddSize(digit);
    if !ok {
      return true, ToCharsResult(range.end, false);
    }
    WriteDecimalText(range.buffer, buffer, digit, neg, abs, value, fmt);
    r := ToCharsResult(buffer + digit, true);
  }
}
