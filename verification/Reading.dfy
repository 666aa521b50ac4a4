/** What read_integral does on any text whatsoever, in terms of characters. */
module Reading {
  import opened Digits
  import opened Numerals
  import opened Parsing
  import opened RoundTrip
  import opened Texts

  /** The six characters that may stand in front of a number. */
  predicate IsBlank(c: int) {
    c == ' ' as int || c == '\t' as int || c == '\n' as int || c == 11 || c == 12 || c == '\r' as int
  }

  ghost predicate Blanks(t: seq<int>) {
    forall i :: 0 <= i < |t| ==> IsBlank(t[i])
  }

  /** From `p` on there are blanks up to `q`, perhaps a sign, and digits of the base from `d` up to `e`: as many of
      each as there are. */
  ghost predicate Layout(t: seq<int>, p: nat, q: nat, d: nat, e: nat, base: nat) {
    && p <= q <= d <= e <= |t|
    && Blanks(t[p..q]) && (q < |t| ==> !IsBlank(t[q]))
    && d == (if q < |t| && (t[q] == '+' as int || t[q] == '-' as int) then q + 1 else q)
    && DigitRun(t, d, e, base)
  }

  ghost predicate DigitRun(t: seq<int>, d: nat, e: nat, base: nat) {
    && d <= e <= |t| && (forall i :: d <= i < e ==> CharValue(t[i]) < base)
    && (e < |t| ==> CharValue(t[e]) >= base)
  }

  /** `r` is the number of the type that is equal to `x` modulo the size of the type. */
  predicate Stored(ty: IntType, x: int, r: int) {
    ty.Valid() && ty.Holds(r) && (r - x) % ty.Size() == 0
  }

  /** The digits from `i` to `e` make the value, with a minus sign its negative. */
  ghost predicate Numbered(ty: IntType, t: seq<int>, i: nat, e: nat, base: nat, minus: bool, r: int)
    requires i <= e <= |t|
  {
    var x: int := NumeralValue(t[i..e], base);
    Stored(ty, if minus then -x else x, r)
  }

  /** A zero and an x, in either case, in base 16. */
  predicate Marked(t: seq<int>, d: nat, base: nat) {
    base == 16 && d + 1 < |t| && t[d] == '0' as int && (t[d + 1] == 'x' as int || t[d + 1] == 'X' as int)
  }

  // ----- The characters -----

  lemma DigitIs(c: int)
    ensures ToDigit(c) < 36 <==> CharValue(c) < 36
    ensures CharValue(c) < 36 ==> ToDigit(c) == CharValue(c)
    ensures ToDigit(c) == 0 <==> c == '0' as int
    ensures ToUpper(c) == 'X' as int <==> c == 'x' as int || c == 'X' as int
  {
  }

  lemma {:induction false} SpacesSkipped(t: seq<int>, p: nat, q: nat)
    requires p <= q <= |t| && Blanks(t[p..q]) && (q < |t| ==> !IsBlank(t[q]))
    ensures SkipSpaces(t, p) == q
    decreases q - p
  {
    if p < q {
      assert t[p..q][0] == t[p] && t[p..q][1..] == t[p + 1..q];
      SpacesSkipped(t, p + 1, q);
    }
  }

  lemma {:induction false} DigitsTaken(t: seq<int>, d: nat, e: nat, base: nat)
    requires base <= 36 && DigitRun(t, d, e, base)
    ensures DigitsEnd(t, d, base) == e
    decreases e - d
  {
    hide ToDigit, CharValue;
    if d < |t| {
      DigitIs(t[d]);
    }
    if d < e {
      DigitsTaken(t, d + 1, e, base);
    }
  }

  lemma {:induction false} ValueTaken(t: seq<int>, i: nat, e: nat, base: nat)
    requires base <= 36 && i <= e <= |t| && forall k :: i <= k < e ==> CharValue(t[k]) < base
    ensures ValueOf(DigitValues(t, i, e), base) == NumeralValue(t[i..e], base)
    decreases e - i
  {
    hide ToDigit, CharValue;
    var d, s := DigitValues(t, i, e), t[i..e];
    if i < e {
      ValueTaken(t, i, e - 1, base);
      DigitIs(t[e - 1]);
      assert d[..|d| - 1] == DigitValues(t, i, e - 1) && s[..|s| - 1] == t[i..e - 1];
    } else {
      assert d == [] && s == [];
    }
  }

  /** read_int64 reads the same digits. */
  lemma Int64Digits(t: seq<int>, p: nat, e: nat)
    requires DigitRun(t, p, e, 10)
    ensures DigitsEnd(t, p, 10) == e && Decimal(t, p, e) == NumeralValue(t[p..e], 10)
  {
    DigitsTaken(t, p, e, 10);
    ValueTaken(t, p, e, 10);
  }

  // ----- The values -----

  lemma TypeSize(ty: IntType)
    requires ty.Valid()
    ensures ty.Size() == Pow(2, ty.bits)
  {
    hide Pow;
    PowersOfTwo();
  }

  lemma Wraps(ty: IntType, x: int)
    requires ty.Valid()
    ensures Stored(ty, x, ty.Wrap(x))
  {
    var n, m := ty.Size(), x % ty.Size();
    assert x == x / n * n + m;
    MultipleOf(-(x / n), n, m - x);
    MultipleOf(-(x / n) - 1, n, m - n - x);
  }

  lemma MultipleOf(q: int, n: nat, x: int)
    requires n > 0 && x == q * n
    ensures x % n == 0
  {
    Arithmetic.Divides(x, q, 0, n);
  }

  /** A number that the type holds is stored as itself only. */
  lemma StoredOnce(ty: IntType, x: int, r: int)
    requires Stored(ty, x, r) && ty.Holds(x)
    ensures r == x
  {
    var n: int := ty.Size();
    assert -n < r - x < n;
  }

  lemma NumberIs(ty: IntType, t: seq<int>, i: nat, e: nat, base: nat, minus: bool)
    requires ty.Valid() && base <= 36 && DigitRun(t, i, e, base)
    ensures var n := Number(ty, t, i, e, base, if minus then -1 else 1);
            Numbered(ty, t, i, e, base, minus, n.value) && n.at == e && n.ok
  {
    hide ToDigit, CharValue, ValueOf, ty.Wrap, Stored;
    ValueTaken(t, i, e, base);
    var x: int := NumeralValue(t[i..e], base);
    Wraps(ty, x);
    Wraps(ty, -x);
    WrapNegate(ty, x);
  }

  // ----- Every text -----

  /** What is read, on every text: nothing but blanks is the end of the input; a minus sign for an unsigned type, or
      no digit (in base 10: and no sign either), is an error, with the cursor where it was. Otherwise the digits make
      the value, with the cursor behind them; but in base 16 an `x` behind a first zero begins the digits anew, and it
      is an error if there are none; and in bases other than 10 the stream is left bad, with the cursor in front of
      it, by a single digit at the end of the input. */
  lemma ParseMeans(ty: IntType, t: seq<int>, p: nat, base: nat, q: nat, d: nat, e: nat, f: nat)
    requires ty.Valid() && 2 <= base <= 36 && Layout(t, p, q, d, e, base)
    requires Marked(t, d, base) ==> DigitRun(t, d + 2, f, 16)
    ensures var r := Parse(ty, t, p, base);
            var minus := q < |t| && t[q] == '-' as int;
            if q == |t| then r == Parsed(0, q, false)
            else if minus && !ty.signed then r == Parsed(0, p, false)
            else if d == e && !(base == 10 && q < d) then r == Parsed(0, p, false)
            else if Marked(t, d, base) then
              if f == d + 2 then r == Parsed(0, p, false)
              else Numbered(ty, t, d + 2, f, 16, minus, r.value) && r.at == f && r.ok
            else
              && Numbered(ty, t, d, e, base, minus, r.value)
              && if base != 10 && e == d + 1 == |t| then r.at == d && !r.ok else r.at == e && r.ok
  {
    hide ToDigit, ToUpper, CharValue, Number, Numbered, SkipSpaces, DigitsEnd, Blanks, IsBlank, DigitRun;
    LayoutBounds(t, p, q, d, e, base);
    if q < |t| && !(t[q] == '-' as int && !ty.signed) {
      var minus := t[q] == '-' as int;
      DigitsTaken(t, d, e, base);
      NumberIs(ty, t, d, e, base, minus);
      if d < |t| {
        DigitIs(t[d]);
      }
      if d + 1 < |t| {
        DigitIs(t[d + 1]);
      }
      if Marked(t, d, base) {
        DigitsTaken(t, d + 2, f, 16);
        NumberIs(ty, t, d + 2, f, 16, minus);
      }
    }
  }

  lemma LayoutBounds(t: seq<int>, p: nat, q: nat, d: nat, e: nat, base: nat)
    requires Layout(t, p, q, d, e, base)
    ensures SkipSpaces(t, p) == q && p <= q <= d <= e <= |t|
  {
    SpacesSkipped(t, p, q);
  }

  /** Every text has a layout, so that `ParseMeans` applies to it. */
  lemma LayoutExists(t: seq<int>, p: nat, base: nat) returns (q: nat, d: nat, e: nat, f: nat)
    requires p <= |t| && 2 <= base <= 36
    ensures Layout(t, p, q, d, e, base) && (Marked(t, d, base) ==> DigitRun(t, d + 2, f, 16))
  {
    q := p;
    while q < |t| && IsBlank(t[q])
      invariant p <= q <= |t| && Blanks(t[p..q])
    {
      assert t[p..q + 1] == t[p..q] + [t[q]];
      q := q + 1;
    }
    d := if q < |t| && (t[q] == '+' as int || t[q] == '-' as int) then q + 1 else q;
    e := RunExists(t, d, base);
    f := 0;
    if Marked(t, d, base) {
      f := RunExists(t, d + 2, 16);
    }
  }

  lemma RunExists(t: seq<int>, d: nat, base: nat) returns (e: nat)
    requires d <= |t|
    ensures DigitRun(t, d, e, base)
  {
    e := d;
    while e < |t| && CharValue(t[e]) < base
      invariant d <= e <= |t| && forall i :: d <= i < e ==> CharValue(t[i]) < base
    {
      e := e + 1;
    }
  }

  // ----- Printed text behind blanks and a plus sign -----

  /** Blanks and, for a number that is not negative, a plus sign in front of a printed number are skipped, and change
      nothing else. */
  lemma SpacedRoundTripIff(ty: IntType, v: int, base: nat, fmt: Format, pre: seq<int>, blanks: seq<int>, plus: bool,
                           rest: seq<int>)
    requires ty.Valid() && ty.Holds(v) && 2 <= base <= 36 && Blanks(blanks) && (plus ==> v >= 0)
    ensures var text := blanks + (if plus then ['+' as int] else []) + Text(v, base, fmt);
            Parse(ty, pre + text + rest, |pre|, base) == Parsed(v, |pre| + |text|, true)
            <==> Delimited(Body(v, base, fmt), base, rest)
  {
    hide Text, Body, Parse, ParseDigits, Delimited, Blanks, IsSpace, ToDigit;
    FirstCharacter(v, base, fmt);
    TextParts(v, base, fmt);
    var sign := if plus then ['+' as int] else Sign(v);
    var body := Body(v, base, fmt);
    var head := pre + blanks + sign;
    var text := blanks + (if plus then ['+' as int] else []) + Text(v, base, fmt);
    assert text == blanks + sign + body;
    assert pre + text + rest == head + body + rest;
    SignedRead(ty, v, base, pre, blanks, sign, body, rest);
    BodyRoundTrip(ty, v, base, fmt, head, rest, |pre|);
  }

  lemma SignPlace(pre: seq<int>, blanks: seq<int>, sign: seq<int>, body: seq<int>, rest: seq<int>)
    requires body != []
    ensures var (t, q, d) := (pre + blanks + sign + body + rest, |pre| + |blanks|, |pre + blanks + sign|);
            && t[|pre|..q] == blanks && d == q + |sign| && t[d] == body[0]
            && t[q] == if sign == [] then body[0] else sign[0]
  {
  }

  /** Whether there is a sign matters only if no digit follows. */
  lemma SignNeedless(ty: IntType, t: seq<int>, p: nat, base: nat, d: nat)
    requires d < |t| && ToDigit(t[d]) < base
    ensures ParseDigits(ty, t, p, base, d, 1, true) == ParseDigits(ty, t, p, base, d, 1, false)
  {
    hide Number, ToDigit, ToUpper;
    assert DigitsEnd(t, d, base) > d;
  }

  lemma SignedRead(ty: IntType, v: int, base: nat, pre: seq<int>, blanks: seq<int>, sign: seq<int>, body: seq<int>,
                   rest: seq<int>)
    requires Blanks(blanks) && (v < 0 ==> ty.signed) && 2 <= base <= 36
    requires if v < 0 then sign == ['-' as int] else sign == [] || sign == ['+' as int]
    requires body != [] && !IsSpace(body[0]) && body[0] != PLUS && body[0] != MINUS && ToDigit(body[0]) < base
    ensures var head := pre + blanks + sign;
            var t := head + body + rest;
            Parse(ty, t, |pre|, base) == ParseDigits(ty, t, |pre|, base, |head|, if v < 0 then -1 else 1, v < 0)
  {
    hide ToDigit, ParseDigits, SkipSpaces, Blanks;
    var head := pre + blanks + sign;
    var t := head + body + rest;
    var q := |pre| + |blanks|;
    SignPlace(pre, blanks, sign, body, rest);
    SpacesSkipped(t, |pre|, q);
    SignNeedless(ty, t, |pre|, base, |head|);
  }
}
