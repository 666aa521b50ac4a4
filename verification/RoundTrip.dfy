/** Printing and parsing integers undo each other, except where read_integral mistakes what follows
    the text for a part of it. */
module RoundTrip {
  import opened Digits
  import opened Texts
  import opened Parsing

  /** The text of a number without its sign. */
  function Body(v: int, base: nat, fmt: Format): (b: seq<int>)
    requires base >= 2
  {
    Prefix(v, base, fmt) + Chars(Padded(SomeDigits(Abs(v), base), fmt.minWidth), fmt.upperCase)
  }

  function Sign(v: int): seq<int> {
    if v < 0 then [MINUS] else []
  }

  /** What may follow the text for read_integral to stop there: in a base other than 10 a digit alone
      must be followed by something, a digit may never follow, nor an `x` a hexadecimal `0`. */
  predicate Delimited(body: seq<int>, base: nat, rest: seq<int>) {
    if rest == [] then base == 10 || |body| >= 2
    else ToDigit(rest[0]) >= base && !(base == 16 && body == [ZERO] && ToUpper(rest[0]) == ('X' as int))
  }

  // ----- Digits in a text -----

  lemma PaddedDigits(v: nat, base: nat, w: nat)
    requires 2 <= base
    ensures var d := Padded(SomeDigits(v, base), w);
            d != [] && ValueOf(d, base) == v && forall i :: 0 <= i < |d| ==> d[i] < base
  {
    hide ValueOf, SomeDigits;
    var d := SomeDigits(v, base);
    ValueOfSome(v, base);
    ValueOfPadded(if w > |d| then w - |d| else 0, d, base);
  }

  lemma ValueOfSome(v: nat, base: nat)
    requires 2 <= base
    ensures var d := SomeDigits(v, base); d != [] && ValueOf(d, base) == v && forall i :: 0 <= i < |d| ==> d[i] < base
  {
    hide ValueOf;
    if v == 0 {
      ValueOfNone(base);
      ValueOfAppend([], 0, base);
      assert [] + [0] == SomeDigits(0, base);
    } else {
      ValueOfDigits(v, base);
    }
  }

  /** The characters of digits are read as those digits. */
  lemma ReadChars(t: seq<int>, i: nat, d: seq<nat>, upper: bool, base: nat)
    requires i + |d| <= |t| && t[i..i + |d|] == Chars(d, upper) && base <= 36
    requires forall k :: 0 <= k < |d| ==> d[k] < base
    ensures DigitValues(t, i, i + |d|) == d
    ensures forall k :: i <= k < i + |d| ==> ToDigit(t[k]) == d[k - i] < base
  {
    forall k | i <= k < i + |d| ensures ToDigit(t[k]) == d[k - i] {
      assert t[k] == t[i..i + |d|][k - i] == DigitChar(d[k - i], upper);
      DigitOfChar(d[k - i], upper);
    }
    forall k | 0 <= k < |d| ensures DigitValues(t, i, i + |d|)[k] == d[k] {
      assert ToDigit(t[i + k]) == d[i + k - i];
    }
  }

  lemma {:induction false} AcrossDigits(t: seq<int>, i: nat, j: nat, base: nat)
    requires i <= j <= |t| && forall k :: i <= k < j ==> ToDigit(t[k]) < base
    ensures DigitsEnd(t, i, base) == DigitsEnd(t, j, base)
    decreases j - i
  {
    if i < j {
      AcrossDigits(t, i + 1, j, base);
    }
  }

  lemma DigitsInPlace(t: seq<int>, i: nat, d: seq<nat>, upper: bool, base: nat)
    requires i + |d| <= |t| && t[i..i + |d|] == Chars(d, upper) && base <= 36 && d != []
    requires forall k :: 0 <= k < |d| ==> d[k] < base
    ensures DigitValues(t, i, i + |d|) == d && ToDigit(t[i]) == d[0] < base
    ensures var e := DigitsEnd(t, i, base);
            e >= i + |d| && (e == i + |d| <==> i + |d| == |t| || ToDigit(t[i + |d|]) >= base)
  {
    ReadChars(t, i, d, upper, base);
    AcrossDigits(t, i, i + |d|, base);
  }

  /** A number in place is read back, if the reader takes exactly its digits. */
  lemma NumberOfDigits(ty: IntType, v: int, t: seq<int>, i: nat, d: seq<nat>, e: nat, base: nat)
    requires ty.Valid() && ty.Holds(v) && i + |d| <= e <= |t|
    requires DigitValues(t, i, i + |d|) == d && ValueOf(d, base) == Abs(v)
    ensures Number(ty, t, i, e, base, if v < 0 then -1 else 1) == Parsed(v, i + |d|, true) <==> e == i + |d|
  {
    HeldValue(ty, v);
  }

  // ----- The round trip -----

  lemma PrefixedRoundTrip(ty: IntType, v: int, base: nat, t: seq<int>, p: nat, d: nat, digits: seq<nat>, upper: bool)
    requires ty.Valid() && ty.Holds(v) && base == 16 && p <= d && d + 2 + |digits| <= |t| && digits != []
    requires t[d] == ZERO && t[d + 1] == ('x' as int) && t[d + 2..d + 2 + |digits|] == Chars(digits, upper)
    requires ValueOf(digits, base) == Abs(v) && forall k :: 0 <= k < |digits| ==> digits[k] < base
    ensures var end := d + 2 + |digits|;
            ParseDigits(ty, t, p, base, d, if v < 0 then -1 else 1, v < 0) == Parsed(v, end, true)
            <==> (end == |t| || ToDigit(t[end]) >= base)
  {
    var start := d + 2;
    assert t[start..start + |digits|] == Chars(digits, upper);
    DigitsInPlace(t, start, digits, upper, base);
    PrefixSkipped(ty, t, p, d, if v < 0 then -1 else 1, v < 0);
    hide *;
    NumberOfDigits(ty, v, t, start, digits, DigitsEnd(t, start, base), base);
  }

  lemma PrefixSkipped(ty: IntType, t: seq<int>, p: nat, d: nat, sign: int, signed: bool)
    requires d + 2 < |t| && t[d] == ZERO && t[d + 1] == ('x' as int) && ToDigit(t[d + 2]) < 16
    ensures ParseDigits(ty, t, p, 16, d, sign, signed) == Number(ty, t, d + 2, DigitsEnd(t, d + 2, 16), 16, sign)
  {
    hide Number;
    assert DigitsEnd(t, d, 16) == DigitsEnd(t, d + 1, 16) == d + 1;
  }

  lemma PlainRoundTrip(ty: IntType, v: int, base: nat, t: seq<int>, p: nat, d: nat, digits: seq<nat>, upper: bool)
    requires ty.Valid() && ty.Holds(v) && 2 <= base <= 36 && p <= d && d + |digits| <= |t| && digits != []
    requires t[d..d + |digits|] == Chars(digits, upper)
    requires ValueOf(digits, base) == Abs(v) && forall k :: 0 <= k < |digits| ==> digits[k] < base
    ensures var end := d + |digits|;
            ParseDigits(ty, t, p, base, d, if v < 0 then -1 else 1, v < 0) == Parsed(v, end, true)
            <==> Delimited(Chars(digits, upper), base, t[end..])
    ensures base != 10 && |digits| == 1 && d + 1 == |t| ==>
            ParseDigits(ty, t, p, base, d, if v < 0 then -1 else 1, v < 0) == Parsed(v, d, false)
  {
    var end := d + |digits|;
    ReadChars(t, d, digits, upper, base);
    AcrossDigits(t, d, end, base);
    var e := DigitsEnd(t, d, base);
    NumberOfDigits(ty, v, t, d, digits, e, base);
    var c := Chars(digits, upper);
    assert ToDigit(t[d]) == digits[0] && c[0] == DigitChar(digits[0], upper);
    if base == 16 {
      HexMark(t, d, digits, upper);
    }
    hide ToDigit, ToUpper, ty.Wrap, SignValue;
  }

  /** Only a lone zero can be taken for the beginning of a prefix. */
  lemma HexMark(t: seq<int>, d: nat, digits: seq<nat>, upper: bool)
    requires d + |digits| <= |t| && digits != []
    requires forall k :: d <= k < d + |digits| ==> ToDigit(t[k]) == digits[k - d] < 16
    ensures d + 1 < |t| && ToUpper(t[d + 1]) == ('X' as int) && ToDigit(t[d]) == 0 ==> |digits| == 1 && digits[0] == 0
    ensures Chars(digits, upper) == [ZERO] <==> |digits| == 1 && digits[0] == 0
  {
    var c := Chars(digits, upper);
    assert c[0] == DigitChar(digits[0], upper);
    if |digits| == 1 && digits[0] == 0 {
      assert c == [ZERO];
    }
  }

  lemma TextParts(v: int, base: nat, fmt: Format)
    requires base >= 2
    ensures Text(v, base, fmt) == Sign(v) + Body(v, base, fmt)
  {
    hide SomeDigits, Padded, Chars, Prefix;
  }

  lemma FirstCharacter(v: int, base: nat, fmt: Format)
    requires 2 <= base <= 36
    ensures Body(v, base, fmt) != []
    ensures var c := Body(v, base, fmt)[0]; !IsSpace(c) && c != PLUS && c != MINUS && ToDigit(c) < base
  {
    PaddedDigits(Abs(v), base, fmt.minWidth);
    hide SomeDigits, Padded, ValueOf;
    var d := Padded(SomeDigits(Abs(v), base), fmt.minWidth);
    FirstOfChars(d, fmt.upperCase);
    hide Chars;
    var prefix, c := Prefix(v, base, fmt), Chars(d, fmt.upperCase);
    assert (prefix + c)[0] == if prefix == [] then c[0] else prefix[0];
  }

  lemma FirstOfChars(d: seq<nat>, upper: bool)
    requires d != [] && d[0] < 36
    ensures var c := Chars(d, upper); !IsSpace(c[0]) && c[0] != PLUS && c[0] != MINUS && ToDigit(c[0]) == d[0]
  {
    DigitOfChar(d[0], upper);
    assert Chars(d, upper)[0] == DigitChar(d[0], upper);
  }

  lemma InPlace(head: seq<int>, prefix: seq<int>, chars: seq<int>, rest: seq<int>)
    ensures var t := head + (prefix + chars) + rest;
            var start := |head| + |prefix|;
            && t[start..start + |chars|] == chars && t[start + |chars|..] == rest
            && forall i :: 0 <= i < |prefix| ==> t[|head| + i] == prefix[i]
  {
  }

  /** Behind its sign, the body of a text is read. */
  lemma BodyRoundTrip(ty: IntType, v: int, base: nat, fmt: Format, head: seq<int>, rest: seq<int>, p: nat)
    requires ty.Valid() && ty.Holds(v) && 2 <= base <= 36 && p <= |head|
    ensures var body := Body(v, base, fmt);
            && (ParseDigits(ty, head + body + rest, p, base, |head|, if v < 0 then -1 else 1, v < 0)
                == Parsed(v, |head| + |body|, true)
                <==> Delimited(body, base, rest))
            && (base != 10 && |body| == 1 && rest == [] ==>
                ParseDigits(ty, head + body + rest, p, base, |head|, if v < 0 then -1 else 1, v < 0)
                == Parsed(v, |head|, false))
  {
    hide SomeDigits, Padded, Chars, ValueOf, ParseDigits, ToDigit, ToUpper;
    var digits := Padded(SomeDigits(Abs(v), base), fmt.minWidth);
    var prefix, chars := Prefix(v, base, fmt), Chars(digits, fmt.upperCase);
    var t := head + Body(v, base, fmt) + rest;
    InPlace(head, prefix, chars, rest);
    PaddedDigits(Abs(v), base, fmt.minWidth);
    if prefix == [] {
      assert prefix + chars == chars;
      PlainRoundTrip(ty, v, base, t, p, |head|, digits, fmt.upperCase);
    } else {
      assert t[|head| + 0] == prefix[0] && t[|head| + 1] == prefix[1];
      PrefixedRoundTrip(ty, v, base, t, p, |head|, digits, fmt.upperCase);
      var end := |head| + 2 + |digits|;
      assert end < |t| ==> t[end] == t[end..][0];
    }
  }

  /** Where the text of a number stands, read_integral finds the sign and goes on behind it. */
  lemma SignRead(ty: IntType, v: int, base: nat, pre: seq<int>, body: seq<int>, rest: seq<int>)
    requires v < 0 ==> ty.signed
    requires body != [] && !IsSpace(body[0]) && body[0] != PLUS && body[0] != MINUS
    ensures var t := pre + (Sign(v) + body) + rest;
            var head := pre + Sign(v);
            t == head + body + rest
            && Parse(ty, t, |pre|, base) == ParseDigits(ty, t, |pre|, base, |head|, if v < 0 then -1 else 1, v < 0)
  {
    var t := pre + (Sign(v) + body) + rest;
    assert t == (pre + Sign(v)) + body + rest;
    assert t[|pre|] == (Sign(v) + body)[0];
    hide ParseDigits;
    assert SkipSpaces(t, |pre|) == |pre|;
  }

  /** The printed text of a number is parsed back, with the cursor right behind it and the stream good,
      exactly if what follows delimits it: at the end of the text or before any character that is no
      digit of the base, but for a lone digit at the end and a hexadecimal `0` before an `x`. */
  lemma RoundTripIff(ty: IntType, v: int, base: nat, fmt: Format, pre: seq<int>, rest: seq<int>)
    requires ty.Valid() && ty.Holds(v) && 2 <= base <= 36
    ensures var text := Text(v, base, fmt);
            Parse(ty, pre + text + rest, |pre|, base) == Parsed(v, |pre| + |text|, true)
            <==> Delimited(Body(v, base, fmt), base, rest)
  {
    FirstCharacter(v, base, fmt);
    TextParts(v, base, fmt);
    SignRead(ty, v, base, pre, Body(v, base, fmt), rest);
    BodyRoundTrip(ty, v, base, fmt, pre + Sign(v), rest, |pre|);
    hide *;
  }

  /** In a base other than 10, a lone digit at the end of the text is returned, but with the cursor in
      front of it and the stream bad. */
  lemma LoneDigit(ty: IntType, v: int, base: nat, fmt: Format, pre: seq<int>)
    requires ty.Valid() && ty.Holds(v) && 2 <= base <= 36 && base != 10 && |Body(v, base, fmt)| == 1
    ensures Parse(ty, pre + Text(v, base, fmt), |pre|, base) == Parsed(v, |pre| + |Sign(v)|, false)
  {
    FirstCharacter(v, base, fmt);
    TextParts(v, base, fmt);
    SignRead(ty, v, base, pre, Body(v, base, fmt), []);
    BodyRoundTrip(ty, v, base, fmt, pre + Sign(v), [], |pre|);
    hide *;
    assert pre + Text(v, base, fmt) + [] == pre + Text(v, base, fmt);
  }
}
