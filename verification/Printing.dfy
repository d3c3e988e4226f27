/** Integer printing: the log printf with its format state machine and digit loops, the shift-based %x of the
    small printf, and the strings both must produce. */
module Printing {
  import opened Base

  function DigitChar(d: nat, upper: bool): (c: char)
    requires d < 16
  {
    if d < 10 then "0123456789"[d] else if upper then "ABCDEF"[d - 10] else "abcdef"[d - 10]
  }

  /** The digit a character stands for; 16 if it is none. */
  function DigitOf(c: char): (d: nat)
    ensures d <= 16
  {
    if '0' <= c <= '9' then c as int - '0' as int
    else if 'a' <= c <= 'f' then c as int - 'a' as int + 10
    else if 'A' <= c <= 'F' then c as int - 'A' as int + 10
    else 16
  }

  lemma DigitRoundTrip(d: nat, upper: bool)
    requires d < 16
    ensures DigitOf(DigitChar(d, upper)) == d
    ensures DigitChar(d, upper) != ' ' && DigitChar(d, upper) != '-'
  {
  }

  /** Unsigned division. */
  function Quotient(x: nat, y: nat): nat
    requires y > 0
  {
    x / y
  }

  function Remainder(x: nat, y: nat): nat
    requires y > 0
  {
    x % y
  }

  function Product(x: nat, y: nat): nat
  {
    x * y
  }

  /** The usual way to write a number: no leading zeros, and zero is one digit. */
  function Digits(v: nat, base: nat, upper: bool): (s: string)
    requires 2 <= base <= 16
    ensures s != []
  {
    DivideBy(v, base);
    (if v < base then [] else Digits(v / base, base, upper)) + [DigitChar(v % base, upper)]
  }

  /** What a string of digits is worth. */
  function Value(s: string, base: nat): nat
  {
    if s == [] then 0 else base * Value(s[..|s| - 1], base) + DigitOf(s[|s| - 1])
  }

  predicate AllDigits(s: string, base: nat)
  {
    forall k :: 0 <= k < |s| ==> DigitOf(s[k]) < base
  }

  /** Every digit is written the way this printer writes it. */
  predicate Uniform(s: string, base: nat, upper: bool)
    requires base <= 16
  {
    forall k :: 0 <= k < |s| ==> DigitOf(s[k]) < base && s[k] == DigitChar(DigitOf(s[k]), upper)
  }

  function Power(base: nat, n: nat): (p: nat)
    requires base > 0
    ensures p > 0
  {
    if n == 0 then 1 else base * Power(base, n - 1)
  }

  lemma ValueSnoc(s: string, c: char, base: nat)
    ensures Value(s + [c], base) == base * Value(s, base) + DigitOf(c)
  {
    assert (s + [c])[..|s|] == s;
  }

  lemma UniformSnoc(s: string, d: nat, base: nat, upper: bool)
    requires base <= 16 && d < base && Uniform(s, base, upper)
    ensures Uniform(s + [DigitChar(d, upper)], base, upper)
  {
    hide DigitChar, DigitOf;
    DigitRoundTrip(d, upper);
  }

  lemma UniformLast(s: string, base: nat, upper: bool)
    requires base <= 16 && s != [] && Uniform(s, base, upper)
    ensures Uniform(s[..|s| - 1], base, upper) && DigitOf(s[|s| - 1]) < base
    ensures s[|s| - 1] == DigitChar(DigitOf(s[|s| - 1]), upper)
  {
  }

  lemma ValueLast(s: string, base: nat)
    requires s != []
    ensures Value(s, base) == base * Value(s[..|s| - 1], base) + DigitOf(s[|s| - 1])
  {
  }

  lemma PowerStep(base: nat, n: nat)
    requires base > 0
    ensures Power(base, n + 1) == base * Power(base, n)
  {
  }

  /** What the digits of a number are worth is the number. */
  lemma {:induction false} DigitsRead(v: nat, base: nat, upper: bool)
    requires 2 <= base <= 16
    ensures Value(Digits(v, base, upper), base) == v && Uniform(Digits(v, base, upper), base, upper)
    ensures v < Power(base, |Digits(v, base, upper)|)
    decreases v
  {
    hide DigitChar, DigitOf, Value, Power, Uniform, Digits;
    DigitsEnd(v, base, upper);
    DigitRoundTrip(v % base, upper);
    if v < base {
      NoDigits(base, upper);
      OneMoreDigit([], 0, v, base, upper);
    } else {
      DigitsRead(v / base, base, upper);
      OneMoreDigit(Digits(v / base, base, upper), v / base, v % base, base, upper);
    }
  }

  lemma DigitsEnd(v: nat, base: nat, upper: bool)
    requires 2 <= base <= 16
    ensures Digits(v, base, upper) ==
            (if v < base then [] else Digits(v / base, base, upper)) + [DigitChar(v % base, upper)]
    ensures v == base * (v / base) + v % base && v % base < base && v / base <= v && (v >= base ==> v / base < v)
    ensures v < base ==> v % base == v
  {
    hide DigitChar;
    DivideBy(v, base);
  }

  lemma DivideBy(v: nat, base: nat)
    requires 2 <= base
    ensures v == base * (v / base) + v % base && v % base < base && v / base <= v && (v >= base ==> v / base < v)
    ensures v < base ==> v % base == v
  {
    var q := v / base;
    assert v == base * q + v % base;
    assert base * q == 2 * q + (base - 2) * q && (base - 2) * q >= 0;
  }

  lemma OneMoreDigit(s: string, x: nat, d: nat, base: nat, upper: bool)
    requires 2 <= base <= 16 && d < base && Value(s, base) == x && Uniform(s, base, upper) && x < Power(base, |s|)
    ensures var t := s + [DigitChar(d, upper)];
            Value(t, base) == base * x + d && Uniform(t, base, upper) && base * x + d < Power(base, |t|)
  {
    hide DigitChar, DigitOf, Value, Power, Uniform;
    DigitRoundTrip(d, upper);
    ValueSnoc(s, DigitChar(d, upper), base);
    UniformSnoc(s, d, base, upper);
    PowerStep(base, |s|);
    BelowProduct(x, d, base, Power(base, |s|));
  }

  lemma NoDigits(base: nat, upper: bool)
    requires 0 < base <= 16
    ensures Value([], base) == 0 && Uniform([], base, upper) && Power(base, 0) == 1
  {
  }

  lemma BelowProduct(q: nat, r: nat, b: nat, p: nat)
    requires q < p && r < b
    ensures b * q + r < b * p
  {
    var k := p - (q + 1);
    assert b * k >= 0;
    assert b * p == b * (q + 1 + k) == b * q + b + b * k;
  }

  /** Digit strings of the same style, length and value are the same string. */
  lemma {:induction false} DigitsUnique(s: string, t: string, base: nat, upper: bool)
    requires 2 <= base <= 16 && Uniform(s, base, upper) && Uniform(t, base, upper)
    requires |s| == |t| && Value(s, base) == Value(t, base)
    ensures s == t
    decreases |s|
  {
    hide DigitChar, DigitOf, Value, Uniform;
    if s != [] {
      var n := |s| - 1;
      UniformLast(s, base, upper);
      UniformLast(t, base, upper);
      ValueLast(s, base);
      ValueLast(t, base);
      LastDigit(base, Value(s[..n], base), DigitOf(s[n]), Value(t[..n], base), DigitOf(t[n]));
      DigitsUnique(s[..n], t[..n], base, upper);
      assert s == s[..n] + [s[n]] && t == t[..n] + [t[n]];
    }
  }

  lemma LastDigit(b: nat, x: nat, d: nat, y: nat, e: nat)
    requires d < b && e < b && b * x + d == b * y + e
    ensures x == y && d == e
  {
    if x < y {
      BelowProduct(x, d, b, y);
      assert false;
    } else if y < x {
      BelowProduct(y, e, b, x);
      assert false;
    }
  }

  /** How a number is to be printed. Width -1 means none was given. */
  datatype Style = Style(base: nat, signed: bool, zero: bool, width: int, upper: bool)
  {
    predicate Valid() {
      base == 8 || base == 10 || base == 16
    }
  }

  predicate Negative(v: nat, f: Style) {
    f.signed && v >= U32 / 2
  }

  /** The number that a 32-bit word stands for. */
  function Meaning(v: nat, f: Style): int {
    if Negative(v, f) then v - U32 else v
  }

  function Magnitude(v: nat, f: Style): (m: nat)
    requires v < U32
    ensures m < U32
  {
    if Negative(v, f) then U32 - v else v
  }

  function Repeat(c: char, n: int): (s: string)
    ensures |s| == if n > 0 then n else 0
    ensures forall k :: 0 <= k < |s| ==> s[k] == c
  {
    if n > 0 then seq(n, _ => c) else []
  }

  /** Sign and digits without padding. */
  function Natural(v: nat, f: Style): (s: string)
    requires v < U32 && f.Valid()
  {
    (if Negative(v, f) then "-" else "") + Digits(Magnitude(v, f), f.base, f.upper)
  }

  /** The whole field: zeros go between sign and digits, blanks in front. */
  function Field(v: nat, f: Style): (s: string)
    requires v < U32 && f.Valid()
    ensures |s| == if f.width > |Natural(v, f)| then f.width else |Natural(v, f)|
  {
    var sign, digits := if Negative(v, f) then "-" else "", Digits(Magnitude(v, f), f.base, f.upper);
    var pad := f.width - |digits| - |sign|;
    if f.zero then sign + Repeat('0', pad) + digits else Repeat(' ', pad) + sign + digits
  }

  /** Reading a number back: blanks, an optional minus, digits. */
  function Parse(s: string, base: nat): Option<int>
  {
    if s != [] && s[0] == ' ' then Parse(s[1..], base)
    else if s != [] && s[0] == '-' then ParseDigits(s[1..], base, -1)
    else ParseDigits(s, base, 1)
  }

  function ParseDigits(s: string, base: nat, sign: int): Option<int>
  {
    if s != [] && AllDigits(s, base) then Some(sign * Value(s, base)) else None
  }

  /** Leading zeros are worth nothing. */
  lemma {:induction false} ValueZeros(n: nat, s: string, base: nat)
    ensures Value(Repeat('0', n) + s, base) == Value(s, base)
    decreases |s|, n
  {
    if s == [] {
      assert Repeat('0', n) + s == Repeat('0', n);
      if n > 0 {
        ValueZeros(n - 1, [], base);
        assert Repeat('0', n)[..n - 1] == Repeat('0', n - 1) == Repeat('0', n - 1) + [];
      }
    } else {
      var t := s[..|s| - 1];
      ValueZeros(n, t, base);
      assert (Repeat('0', n) + s)[..n + |t|] == Repeat('0', n) + t;
    }
  }

  lemma {:induction false} ParseBlanks(n: nat, s: string, base: nat)
    ensures Parse(Repeat(' ', n) + s, base) == Parse(s, base)
  {
    hide ParseDigits;
    if n == 0 {
      assert Repeat(' ', n) + s == s;
    } else {
      hide Parse;
      ParseBlanks(n - 1, s, base);
      OneBlank(n, s);
      ParseSkip(Repeat(' ', n) + s, base);
    }
  }

  lemma OneBlank(n: nat, s: string)
    requires n > 0
    ensures var t := Repeat(' ', n) + s;
            t[0] == ' ' && t[1..] == Repeat(' ', n - 1) + s
  {
  }

  lemma ParseSkip(s: string, base: nat)
    requires s != [] && s[0] == ' '
    ensures Parse(s, base) == Parse(s[1..], base)
  {
    hide ParseDigits;
  }

  /** A run of zeros and digits reads as what it says, with and without a sign. */
  lemma ParseRun(zeros: nat, m: nat, base: nat, upper: bool)
    requires 2 <= base <= 16
    ensures var s := Repeat('0', zeros) + Digits(m, base, upper);
            Parse(s, base) == Some(m) && Parse("-" + s, base) == Some(-(m as int))
  {
    hide Digits, Repeat, Value, AllDigits, Parse;
    var s := Repeat('0', zeros) + Digits(m, base, upper);
    RunValue(zeros, m, base, upper);
    ParsePlain(s, base);
    ParseMinus(s, base);
  }

  lemma RunValue(zeros: nat, m: nat, base: nat, upper: bool)
    requires 2 <= base <= 16
    ensures var s := Repeat('0', zeros) + Digits(m, base, upper);
            s != [] && s[0] != ' ' && s[0] != '-' && AllDigits(s, base) && Value(s, base) == m
  {
    hide Digits, Repeat, Value, AllDigits, Uniform;
    var digits := Digits(m, base, upper);
    DigitsRead(m, base, upper);
    ValueZeros(zeros, digits, base);
    ZerosAreDigits(zeros, digits, base, upper);
  }

  lemma ParsePlain(s: string, base: nat)
    requires s != [] && s[0] != ' ' && s[0] != '-'
    ensures Parse(s, base) == ParseDigits(s, base, 1)
  {
  }

  lemma ParseMinus(s: string, base: nat)
    ensures Parse("-" + s, base) == ParseDigits(s, base, -1)
  {
    assert ("-" + s)[1..] == s;
  }

  lemma ZerosAreDigits(n: nat, s: string, base: nat, upper: bool)
    requires 2 <= base <= 16 && s != [] && Uniform(s, base, upper)
    ensures AllDigits(Repeat('0', n) + s, base)
    ensures (Repeat('0', n) + s)[0] != ' ' && (Repeat('0', n) + s)[0] != '-'
  {
    var t := Repeat('0', n) + s;
    forall k | 0 <= k < |t|
      ensures DigitOf(t[k]) < base
    {
      if k >= n {
        assert t[k] == s[k - n];
      }
    }
    assert DigitOf(t[0]) < base;
  }

  /** Sign, digits and padding together. */
  function Filled(sign: string, digits: string, pad: int, zero: bool): string
  {
    if zero then sign + Repeat('0', pad) + digits else Repeat(' ', pad) + sign + digits
  }

  lemma FieldIs(v: nat, f: Style)
    requires v < U32 && f.Valid()
    ensures var sign, digits := if Negative(v, f) then "-" else "", Digits(Magnitude(v, f), f.base, f.upper);
            && Field(v, f) == Filled(sign, digits, f.width - |digits| - |sign|, f.zero)
            && Natural(v, f) == sign + digits
  {
    hide Digits, Repeat;
  }

  lemma FilledForm(sign: string, digits: string, pad: int, zero: bool) returns (blanks: nat, zeros: nat)
    ensures Filled(sign, digits, pad, zero) == Repeat(' ', blanks) + (sign + (Repeat('0', zeros) + digits))
  {
    var n: nat := if pad > 0 then pad else 0;
    blanks, zeros := if zero then 0 else n, if zero then n else 0;
    assert Repeat('0', pad) == Repeat('0', n) && Repeat(' ', pad) == Repeat(' ', n);
    assert Repeat('0', 0) == "" == Repeat(' ', 0);
    hide Repeat;
    if zero {
      assert sign + Repeat('0', n) + digits == "" + (sign + (Repeat('0', n) + digits));
    } else {
      assert Repeat(' ', n) + sign + digits == Repeat(' ', n) + (sign + ("" + digits));
    }
  }

  /** A field is blanks and a run, or a run with zeros in front. */
  lemma FieldForm(v: nat, f: Style) returns (blanks: nat, zeros: nat)
    requires v < U32 && f.Valid()
    ensures var run := Repeat('0', zeros) + Digits(Magnitude(v, f), f.base, f.upper);
            Field(v, f) == Repeat(' ', blanks) + (if Negative(v, f) then "-" + run else run)
  {
    hide Digits, Repeat, Field, Filled, Natural;
    var sign, digits := if Negative(v, f) then "-" else "", Digits(Magnitude(v, f), f.base, f.upper);
    FieldIs(v, f);
    blanks, zeros := FilledForm(sign, digits, f.width - |digits| - |sign|, f.zero);
    var run := Repeat('0', zeros) + digits;
    assert "" + run == run;
  }

  /** Whatever is printed reads back as the value that was printed. */
  lemma {:induction false} FieldReadsBack(v: nat, f: Style)
    requires v < U32 && f.Valid()
    ensures Parse(Field(v, f), f.base) == Some(Meaning(v, f))
  {
    hide Digits, Parse, Repeat, Field;
    var blanks, zeros := FieldForm(v, f);
    var m := Magnitude(v, f);
    ParseRun(zeros, m, f.base, f.upper);
    var run := Repeat('0', zeros) + Digits(m, f.base, f.upper);
    if Negative(v, f) {
      ParseBlanks(blanks, "-" + run, f.base);
    } else {
      ParseBlanks(blanks, run, f.base);
    }
  }

  /** Dividing by a power and by the next lower one. */
  lemma DivideStep(v: nat, p: nat, b: nat)
    requires p > 0 && b > 0
    ensures b * p > 0
    ensures Quotient(v, b * p) * b + Quotient(Remainder(v, b * p), p) == Quotient(v, p)
    ensures Remainder(Remainder(v, b * p), p) == Remainder(v, p)
    ensures Quotient(Remainder(v, b * p), p) < b
  {
    var s := b * p;
    Positive(b, p);
    var q, r := v / s, v % s;
    Division(v, s);
    var d, e := r / p, r % p;
    Division(r, p);
    Regroup(q, b, p, d);
    DivideUnique(v, p, q * b + d, e);
    if d >= b {
      BelowOrEqual(b, d, p);
      assert false;
    }
  }

  lemma Positive(x: nat, y: nat)
    requires x > 0 && y > 0
    ensures x * y > 0
  {
  }

  lemma Division(x: nat, y: nat)
    requires y > 0
    ensures x == (x / y) * y + x % y && x % y < y
  {
  }

  lemma Regroup(q: nat, b: nat, p: nat, d: nat)
    ensures q * (b * p) + d * p == (q * b + d) * p
  {
  }

  lemma BelowOrEqual(x: nat, y: nat, z: nat)
    requires x <= y
    ensures x * z <= y * z
  {
  }

  lemma DivideUnique(v: nat, p: nat, q: nat, r: nat)
    requires p > 0 && v == q * p + r && r < p
    ensures v / p == q && v % p == r
  {
    var x, y := v / p, v % p;
    assert v == x * p + y;
    LastDigit(p, x, y, q, r);
  }

  /** alt_log_repchar, onto what was printed before. */
  method RepeatChar(out: string, c: char, n: int) returns (out': string)
    ensures out' == out + Repeat(c, n)
  {
    hide Repeat;
    out' := out;
    var r := n;
    RepeatNext(c, 0);
    assert out == out + Repeat(c, 0);
    while r > 0
      invariant r <= n && (n <= 0 ==> r == n) && (n > 0 ==> r >= 0)
      invariant out' == out + Repeat(c, n - r)
    {
      RepeatNext(c, n - r);
      out' := out' + [c];
      r := r - 1;
    }
    RepeatNext(c, n);
  }

  lemma RepeatNext(c: char, k: int)
    ensures k >= 0 ==> Repeat(c, k + 1) == Repeat(c, k) + [c]
    ensures k <= 0 ==> Repeat(c, k) == []
  {
  }

  /** Count the digits and find the place value of the first. */
  method PlaceValue(v: nat, base: nat, ghost upper: bool) returns (p: nat, digitCount: nat)
    requires 2 <= base <= 16
    ensures digitCount == |Digits(v, base, upper)| > 0 && p == Power(base, digitCount - 1)
    ensures p <= v || p == 1
  {
    hide Digits, Power, Quotient, Product;
    var shrink: nat := v;
    p, digitCount := 1, 1;
    NoDigits(base, upper);
    DigitsEnd(shrink, base, upper);
    while Quotient(shrink, base) > 0
      invariant digitCount > 0 && p == Power(base, digitCount - 1)
      invariant |Digits(v, base, upper)| == digitCount - 1 + |Digits(shrink, base, upper)|
      invariant shrink <= v && (p == 1 || (shrink > 0 && Product(p, shrink) <= v))
      decreases shrink
    {
      PlaceFits(p, shrink, base, v);
      Shorter(shrink, base, upper);
      PlaceUp(base, digitCount);
      shrink := Quotient(shrink, base);
      digitCount := digitCount + 1;
      p := Product(p, base);
    }
    Shorter(shrink, base, upper);
    if p != 1 {
      AtLeast(p, shrink);
    }
  }

  /** The place value never outgrows the number, so it does not overflow either. */
  lemma PlaceFits(p: nat, x: nat, base: nat, v: nat)
    requires base > 0 && Quotient(x, base) > 0 && x <= v && (p == 1 || Product(p, x) <= v)
    ensures Product(Product(p, base), Quotient(x, base)) <= v && Quotient(x, base) <= v
  {
    var q := x / base;
    Division(x, base);
    AtLeast(q, base);
    var y := q * base;
    BelowOrEqual(y, x, p);
    Reordered(p, base, q);
  }

  lemma Reordered(p: nat, b: nat, q: nat)
    ensures Product(Product(p, b), q) == (q * b) * p
  {
  }

  lemma AtLeast(p: nat, x: nat)
    requires x > 0
    ensures p <= Product(p, x)
  {
    BelowOrEqual(1, x, p);
  }

  lemma PlaceUp(base: nat, k: nat)
    requires base > 0 && k > 0
    ensures Product(Power(base, k - 1), base) == Power(base, k)
  {
  }

  lemma Shorter(x: nat, base: nat, upper: bool)
    requires 2 <= base <= 16
    ensures Quotient(x, base) > 0 ==> |Digits(x, base, upper)| == 1 + |Digits(Quotient(x, base), base, upper)| && Quotient(x, base) < x
    ensures Quotient(x, base) == 0 ==> |Digits(x, base, upper)| == 1
  {
    hide DigitChar;
    DivideBy(x, base);
  }

  /** Print the digits from the highest place value down. */
  method PrintDigits(out: string, v0: nat, base: nat, upper: bool, p0: nat, ghost count: nat) returns (out': string)
    requires 2 <= base <= 16 && count == |Digits(v0, base, upper)| && p0 == Power(base, count - 1)
    ensures out' == out + Digits(v0, base, upper)
  {
    hide Digits, Power, Value, Uniform, DigitOf, DigitChar, Quotient, Remainder;
    var v, p, k := v0, p0, count;
    ghost var done := "";
    out' := out;
    assert out == out + done;
    DigitsRead(v0, base, upper);
    NoDigits(base, upper);
    PowerStep(base, count - 1);
    Smaller(v0, Power(base, count));
    while p > 0
      invariant p == if k == 0 then 0 else Power(base, k - 1)
      invariant |done| + k == count && out' == out + done && Uniform(done, base, upper)
      invariant Value(done, base) == Quotient(v0, Power(base, k)) && v == Remainder(v0, Power(base, k))
      decreases k
    {
      PowerStep(base, k - 1);
      DivideStep(v0, p, base);
      var d := Quotient(v, p);
      DigitRoundTrip(d, upper);
      ValueSnoc(done, DigitChar(d, upper), base);
      UniformSnoc(done, d, base, upper);
      out' := out' + [DigitChar(d, upper)];
      done := done + [DigitChar(d, upper)];
      NextPlace(base, k);
      v := Remainder(v, p);
      p := Quotient(p, base);
      k := k - 1;
    }
    ByOne(v0);
    DigitsUnique(done, Digits(v0, base, upper), base, upper);
  }

  lemma Smaller(x: nat, y: nat)
    requires x < y
    ensures Quotient(x, y) == 0 && Remainder(x, y) == x
  {
  }

  lemma ByOne(x: nat)
    ensures Quotient(x, 1) == x
  {
  }

  lemma NextPlace(base: nat, k: nat)
    requires base >= 2 && k > 0
    ensures Quotient(Power(base, k - 1), base) == if k == 1 then 0 else Power(base, k - 2)
  {
    if k > 1 {
      DivideUnique(Power(base, k - 1), base, Power(base, k - 2), 0);
    }
  }

  /** The integer conversion of alt_log_private_printf. */
  method PrintInteger(out: string, word: nat, f: Style) returns (out': string)
    requires word < U32 && f.Valid()
    ensures out' == out + Field(word, f)
  {
    hide Digits, Repeat, Power;
    var v, sign := word, false;
    if f.signed && v >= 0x8000_0000 {
      v := U32 - v;
      sign := true;
    }
    var p, digitCount := PlaceValue(v, f.base, f.upper);
    var before := f.width - digitCount;
    out' := out;
    if f.zero {
      if sign {
        out' := out' + "-";
        before := before - 1;
      }
      out' := RepeatChar(out', '0', before);
    } else {
      if sign {
        before := before - 1;
      }
      out' := RepeatChar(out', ' ', before);
      if sign {
        out' := out' + "-";
      }
    }
    out' := PrintDigits(out', v, f.base, f.upper, p, digitCount);
  }

  /** A number between two powers has that many digits. */
  lemma {:induction false} DigitsLength(v: nat, base: nat, upper: bool, n: nat)
    requires 2 <= base <= 16 && n > 0 && v < Power(base, n) && (n == 1 || v >= Power(base, n - 1))
    ensures |Digits(v, base, upper)| == n
    decreases n
  {
    hide Digits, DigitChar;
    Division(v, base);
    Shorter(v, base, upper);
    PowerStep(base, n - 1);
    if n == 1 {
      NoDigits(base, upper);
      Smaller(v, base);
    } else {
      var q, low, high := Quotient(v, base), Power(base, n - 2), Power(base, n - 1);
      PowerStep(base, n - 2);
      BetweenQuotient(v, base, low, high);
      DigitsLength(q, base, upper, n - 1);
    }
  }

  lemma BetweenQuotient(v: nat, b: nat, low: nat, high: nat)
    requires b > 0 && low > 0 && b * low <= v < b * high
    ensures 0 < low <= Quotient(v, b) < high
  {
    var q := v / b;
    Division(v, b);
    if q < low {
      BelowProduct(q, v % b, b, low);
      assert false;
    }
    if q >= high {
      BelowOrEqual(high, q, b);
      assert false;
    }
  }

  /** The four bits of v that start at bit digitShift. */
  function Nibble(v: nat, digitShift: int): (d: nat)
    requires digitShift >= 0
    ensures d < 16
  {
    Quotient(v, Power(16, digitShift / 4)) % 16
  }

  /** The %x conversion of alt_printf: it shifts and never divides, and prints the same string. */
  method PrintHex(out: string, v: nat) returns (out': string)
    requires v < U32
    ensures out' == out + Field(v, Style(16, false, false, -1, false))
  {
    hide Digits, Power, Value, Uniform, DigitOf, DigitChar, Quotient;
    HexField(v);
    if v == 0 {
      ZeroDigits();
      return out + "0";
    }
    var digitShift := 28;
    HexStart(v);
    while Nibble(v, digitShift) == 0
      invariant 0 <= digitShift <= 28 && digitShift % 4 == 0 && v < Power(16, digitShift / 4 + 1)
      decreases digitShift
    {
      LowerNibble(v, digitShift / 4);
      digitShift := digitShift - 4;
    }
    ghost var n := digitShift / 4 + 1;
    LeadingNibble(v, digitShift / 4);
    DigitsLength(v, 16, false, n);
    DigitsRead(v, 16, false);
    NoDigits(16, false);
    Smaller(v, Power(16, n));
    ghost var done := "";
    out' := out;
    assert out == out + done;
    while digitShift >= 0
      invariant -4 <= digitShift <= 28 && digitShift % 4 == 0
      invariant |done| + (digitShift + 4) / 4 == n && out' == out + done && Uniform(done, 16, false)
      invariant Value(done, 16) == Quotient(v, Power(16, (digitShift + 4) / 4))
      decreases digitShift + 4
    {
      var digit := Nibble(v, digitShift);
      NextNibble(v, digitShift / 4);
      DigitRoundTrip(digit, false);
      ValueSnoc(done, DigitChar(digit, false), 16);
      UniformSnoc(done, digit, 16, false);
      out' := out' + [DigitChar(digit, false)];
      done := done + [DigitChar(digit, false)];
      digitShift := digitShift - 4;
    }
    ByOne(v);
    DigitsUnique(done, Digits(v, 16, false), 16, false);
  }

  lemma HexField(v: nat)
    requires v < U32
    ensures Field(v, Style(16, false, false, -1, false)) == Digits(v, 16, false)
  {
    hide Digits;
    assert "" + Digits(v, 16, false) == Digits(v, 16, false);
  }

  lemma ZeroDigits()
    ensures Digits(0, 16, false) == "0"
  {
  }

  lemma HexStart(v: nat)
    requires v < U32
    ensures v < Power(16, 8)
  {
    assert Power(16, 8) == 16 * (16 * (16 * (16 * Power(16, 4))));
    assert Power(16, 4) == 16 * (16 * (16 * (16 * Power(16, 0))));
  }

  lemma LowerNibble(v: nat, i: nat)
    requires 0 < v < Power(16, i + 1) && Quotient(v, Power(16, i)) % 16 == 0
    ensures i > 0 && v < Power(16, i)
  {
    hide Power;
    PowerStep(16, i);
    NoDigits(16, false);
    var p := Power(16, i);
    Division(v, p);
    var q := v / p;
    if q >= 16 {
      BelowOrEqual(16, q, p);
      assert false;
    }
    assert q == 0;
    if i == 0 {
      assert false;
    }
  }

  lemma LeadingNibble(v: nat, i: nat)
    requires Quotient(v, Power(16, i)) % 16 != 0
    ensures v >= Power(16, i)
  {
    hide Power;
    if v < Power(16, i) {
      Smaller(v, Power(16, i));
      assert false;
    }
  }

  lemma NextNibble(v: nat, i: nat)
    ensures 16 * Quotient(v, Power(16, i + 1)) + Quotient(v, Power(16, i)) % 16 == Quotient(v, Power(16, i))
  {
    hide Power;
    PowerStep(16, i);
    var p := Power(16, i);
    DivideStep(v, p, 16);
    var low := Quotient(Remainder(v, 16 * p), p);
    assert low < 16;
  }

  /** A variable argument, seen as a word or as a pointer to a string. */
  datatype Arg = Arg(word: Word, text: string)

  type Word = x: nat | x < U32 witness 0

  function Byte(w: Word): char
  {
    (w % 256) as char
  }

  /** The letters that print an integer, and how. */
  function StyleOf(c: char, zero: bool, width: int): Option<Style>
  {
    match c
    case 'd' => Some(Style(10, true, zero, width, false))
    case 'i' => Some(Style(10, true, zero, width, false))
    case 'u' => Some(Style(10, false, zero, width, false))
    case 'o' => Some(Style(8, false, zero, width, false))
    case 'x' => Some(Style(16, false, zero, width, false))
    case 'X' => Some(Style(16, false, zero, width, true))
    case _ => None
  }

  predicate TakesArg(c: char) {
    StyleOf(c, false, 0).Some? || c == 'c' || c == 's'
  }

  function Converted(c: char, a: Arg, zero: bool, width: int): string
  {
    var style := StyleOf(c, zero, width);
    if style.Some? then Field(a.word, style.value)
    else if c == 'c' then Repeat(' ', width - 1) + [Byte(a.word)]
    else if c == 's' then Repeat(' ', width - |a.text|) + a.text
    else ""
  }

  /** What a format prints, read from left to right; k arguments are used up. */
  function Render(fmt: string, args: nat -> Arg, k: nat): string
    decreases |fmt|, 2
  {
    if fmt == [] then ""
    else if fmt[0] == '%' then RenderFirst(fmt[1..], args, k)
    else [fmt[0]] + Render(fmt[1..], args, k)
  }

  /** Directly behind a percent sign. */
  function RenderFirst(fmt: string, args: nat -> Arg, k: nat): string
    decreases |fmt|, 1
  {
    if fmt == [] then ""
    else if fmt[0] == '0' then RenderOther(fmt[1..], args, k, true, -1, -1)
    else if fmt[0] == '%' then "%" + Render(fmt[1..], args, k)
    else RenderOther(fmt, args, k, false, -1, -1)
  }

  /** In the rest of a directive, with the numbers before and after the point read so far. */
  function RenderOther(fmt: string, args: nat -> Arg, k: nat, zero: bool, before: int, after: int): string
    decreases |fmt|, 0
  {
    if fmt == [] then ""
    else if fmt[0] == '.' then RenderOther(fmt[1..], args, k, zero, before, 0)
    else if '0' <= fmt[0] <= '9' then
      var d := DigitOf(fmt[0]);
      if after < 0 then RenderOther(fmt[1..], args, k, zero, Longer(before, d), after)
      else RenderOther(fmt[1..], args, k, zero, before, after * 10 + d)
    else if fmt[0] == 'l' then RenderOther(fmt[1..], args, k, zero, before, after)
    else Converted(fmt[0], args(k), zero, before) + Render(fmt[1..], args, if TakesArg(fmt[0]) then k + 1 else k)
  }

  function Longer(before: int, d: nat): int
  {
    (if before < 0 then 0 else before * 10) + d
  }

  datatype State = Chars | FirstFmtChar | OtherFmtChar

  /** What is still to be printed in a state. */
  function Pending(state: State, fmt: string, args: nat -> Arg, k: nat, zero: bool, before: int, after: int): string
  {
    match state
    case Chars => Render(fmt, args, k)
    case FirstFmtChar => RenderFirst(fmt, args, k)
    case OtherFmtChar => RenderOther(fmt, args, k, zero, before, after)
  }

  lemma CharsStep(c: char, rest: string, args: nat -> Arg, k: nat)
    ensures Render([c] + rest, args, k) == if c == '%' then RenderFirst(rest, args, k) else [c] + Render(rest, args, k)
  {
    hide RenderFirst;
    assert ([c] + rest)[1..] == rest;
  }

  lemma FirstStep(c: char, rest: string, args: nat -> Arg, k: nat)
    ensures RenderFirst([c] + rest, args, k) ==
            if c == '0' then RenderOther(rest, args, k, true, -1, -1)
            else if c == '%' then "%" + Render(rest, args, k)
            else RenderOther([c] + rest, args, k, false, -1, -1)
  {
    hide Render, RenderOther;
    assert ([c] + rest)[1..] == rest;
  }

  lemma OtherStep(c: char, rest: string, args: nat -> Arg, k: nat, zero: bool, before: int, after: int)
    ensures RenderOther([c] + rest, args, k, zero, before, after) ==
            if c == '.' then RenderOther(rest, args, k, zero, before, 0)
            else if '0' <= c <= '9' then
              if after < 0 then RenderOther(rest, args, k, zero, Longer(before, DigitOf(c)), after)
              else RenderOther(rest, args, k, zero, before, after * 10 + DigitOf(c))
            else if c == 'l' then RenderOther(rest, args, k, zero, before, after)
            else Converted(c, args(k), zero, before) + Render(rest, args, if TakesArg(c) then k + 1 else k)
  {
    hide Render, Converted, Longer, DigitOf;
    assert ([c] + rest)[1..] == rest;
  }

  /** alt_log_private_printf: the format state machine. */
  method LogPrintf(fmt: string, args: nat -> Arg) returns (out: string)
    ensures out == Render(fmt, args, 0)
  {
    hide Render, RenderFirst, RenderOther, Converted, DigitOf;
    out := "";
    var state := Chars;
    var zero, before, after, k := false, 0, 0, 0;
    assert fmt[0..] == fmt && "" + Render(fmt, args, 0) == Render(fmt, args, 0);
    for i := 0 to |fmt|
      invariant Render(fmt, args, 0) == out + Pending(state, fmt[i..], args, k, zero, before, after)
      invariant state.FirstFmtChar? ==> !zero && before == -1 && after == -1
    {
      var c := fmt[i];
      ghost var rest := fmt[i + 1..];
      assert fmt[i..] == [c] + rest;
      out, state, zero, before, after, k := OneChar(out, state, c, rest, args, k, zero, before, after);
    }
    NothingLeft(state, args, k, zero, before, after);
    assert fmt[|fmt|..] == "" && out + "" == out;
  }

  /** One turn of the format loop. */
  method OneChar(out: string, state: State, c: char, ghost rest: string, args: nat -> Arg, k: nat, zero: bool,
                 before: int, after: int)
    returns (out': string, state': State, zero': bool, before': int, after': int, k': nat)
    requires state.FirstFmtChar? ==> !zero && before == -1 && after == -1
    ensures state'.FirstFmtChar? ==> !zero' && before' == -1 && after' == -1
    ensures out' + Pending(state', rest, args, k', zero', before', after') ==
            out + Pending(state, [c] + rest, args, k, zero, before, after)
  {
    hide Render, RenderFirst, RenderOther, Converted, DigitOf;
    out', state', zero', before', after', k' := out, state, zero, before, after, k;
    if state == Chars {
      CharsStep(c, rest, args, k);
      if c == '%' {
        zero', before', after', state' := false, -1, -1, FirstFmtChar;
      } else {
        out' := out + [c];
      }
      return;
    }
    if state == FirstFmtChar {
      FirstStep(c, rest, args, k);
      if c == '0' {
        zero', state' := true, OtherFmtChar;
        return;
      }
      if c == '%' {
        out', state' := out + [c], Chars;
        return;
      }
    }
    out', state', before', after', k' := OtherChar(out, c, rest, args, k, zero, before, after);
  }

  lemma NothingLeft(state: State, args: nat -> Arg, k: nat, zero: bool, before: int, after: int)
    ensures Pending(state, "", args, k, zero, before, after) == ""
  {
  }

  /** A character inside a directive. */
  method OtherChar(out: string, c: char, ghost rest: string, args: nat -> Arg, k: nat, zero: bool, before: int, after: int)
    returns (out': string, state: State, before': int, after': int, k': nat)
    ensures !state.FirstFmtChar?
    ensures out' + Pending(state, rest, args, k', zero, before', after') ==
            out + RenderOther([c] + rest, args, k, zero, before, after)
  {
    hide Render, RenderFirst, RenderOther, Converted, DigitOf;
    OtherStep(c, rest, args, k, zero, before, after);
    out', state, before', after', k' := out, OtherFmtChar, before, after, k;
    if c == '.' {
      after' := 0;
    } else if '0' <= c <= '9' {
      var d := DigitOf(c);
      if after < 0 {
        before' := if before < 0 then 0 else before * 10;
        before' := before' + d;
      } else {
        after' := after * 10 + d;
      }
    } else if c != 'l' {
      var took;
      out', took := Convert(out, c, args(k), zero, before);
      if took {
        k' := k + 1;
      }
      state := Chars;
    }
  }

  /** The letter that ends a directive. */
  method Convert(out: string, c: char, a: Arg, zero: bool, before: int) returns (out': string, took: bool)
    ensures out' == out + Converted(c, a, zero, before) && took == TakesArg(c)
  {
    hide Field, Repeat;
    out', took := out, true;
    var base, signed, upper := 10, true, false;
    if c == 'c' {
      out' := RepeatChar(out', ' ', before - 1);
      out' := out' + [Byte(a.word)];
      return;
    } else if c == 's' {
      out' := RepeatChar(out', ' ', before - |a.text|);
      out' := out' + a.text;
      return;
    } else if c == 'u' {
      signed := false;
    } else if c == 'o' {
      signed, base := false, 8;
    } else if c == 'x' {
      signed, base := false, 16;
    } else if c == 'X' {
      signed, base, upper := false, 16, true;
    } else if c != 'd' && c != 'i' {
      return out, false;
    }
    out' := PrintInteger(out', a.word, Style(base, signed, zero, before, upper));
  }

  /** The digits of a number do not begin with a zero, unless it is zero. */
  lemma {:induction false} FirstNotZero(v: nat, base: nat, upper: bool)
    requires 2 <= base <= 16 && v > 0
    ensures Digits(v, base, upper)[0] != '0'
    decreases v
  {
    DigitRoundTrip(v % base, upper);
    DigitsEnd(v, base, upper);
    hide Digits, DigitChar;
    if v >= base {
      QuotientPositive(v, base);
      FirstNotZero(v / base, base, upper);
    }
  }

  lemma QuotientPositive(v: nat, base: nat)
    requires 0 < base <= v
    ensures v / base > 0
  {
    Division(v, base);
  }

  /** What may stand between the percent sign and the letter: digits, a point, the length letter. */
  predicate Modifiers(m: string)
  {
    forall k :: 0 <= k < |m| ==> '0' <= m[k] <= '9' || m[k] == '.' || m[k] == 'l'
  }

  /** The width they are read as: the number that the digits before a point add up to, -1 without any. */
  function WidthRead(m: string, before: int, pointed: bool): int
  {
    if m == [] then before
    else if m[0] == '.' then WidthRead(m[1..], before, true)
    else if m[0] == 'l' || pointed then WidthRead(m[1..], before, pointed)
    else WidthRead(m[1..], Longer(before, DigitOf(m[0])), pointed)
  }

  /** What can end a directive. */
  predicate Letter(c: char) {
    c != '.' && c != 'l' && !('0' <= c <= '9')
  }

  /** A directive is read up to its letter, which is printed in the width read. */
  lemma {:induction false} ReadModifiers(m: string, c: char, rest: string, args: nat -> Arg, k: nat, zero: bool, before: int, after: int)
    requires Modifiers(m) && Letter(c) && after >= -1
    ensures RenderOther(m + ([c] + rest), args, k, zero, before, after) ==
            Converted(c, args(k), zero, WidthRead(m, before, after >= 0)) +
            Render(rest, args, if TakesArg(c) then k + 1 else k)
    decreases |m|
  {
    hide Render, Converted, DigitOf, Longer;
    if m == [] {
      assert m + ([c] + rest) == [c] + rest;
      OtherStep(c, rest, args, k, zero, before, after);
    } else {
      var d, n := m[0], m[1..];
      assert m + ([c] + rest) == [d] + (n + ([c] + rest));
      OtherStep(d, n + ([c] + rest), args, k, zero, before, after);
      if d == '.' {
        ReadModifiers(n, c, rest, args, k, zero, before, 0);
      } else if d == 'l' {
        ReadModifiers(n, c, rest, args, k, zero, before, after);
      } else if after < 0 {
        ReadModifiers(n, c, rest, args, k, zero, Longer(before, DigitOf(d)), after);
      } else {
        ReadModifiers(n, c, rest, args, k, zero, before, after * 10 + DigitOf(d));
      }
    }
  }

  lemma AnyWidth(c: char, zero: bool, width: int, other: int)
    ensures StyleOf(c, zero, width).Some? <==> StyleOf(c, zero, other).Some?
  {
  }

  lemma LetterTakesArg(c: char, zero: bool, width: int)
    requires StyleOf(c, zero, width).Some?
    ensures TakesArg(c) && Letter(c) && c != '%'
  {
  }

  /** A directive for an integer, with what stands between the percent sign and its letter. */
  function Directive(zero: bool, m: string, c: char): string
  {
    "%" + (if zero then "0" else "") + m + [c]
  }

  /** A directive prints what its letter asks for in the width read, and the rest of the format follows. */
  lemma DirectiveRenders(zero: bool, m: string, c: char, rest: string, args: nat -> Arg, k: nat)
    requires Modifiers(m) && Letter(c) && c != '%' && (zero || m == "" || m[0] != '0')
    ensures Render(Directive(zero, m, c) + rest, args, k) ==
            Converted(c, args(k), zero, WidthRead(m, -1, false)) + Render(rest, args, if TakesArg(c) then k + 1 else k)
  {
    hide Render, RenderFirst, RenderOther, WidthRead, Converted, TakesArg;
    var tail := m + ([c] + rest);
    assert m != "" ==> tail[0] == m[0];
    PercentStart(zero, tail, args, k);
    ReadModifiers(m, c, rest, args, k, zero, -1, -1);
    if zero {
      assert Directive(zero, m, c) + rest == ['%'] + (['0'] + tail);
    } else {
      assert Directive(zero, m, c) + rest == ['%'] + tail;
    }
  }

  /** Every directive for an integer prints the field its flag, its width if it has one, and its letter ask for. */
  lemma DirectivePrints(zero: bool, m: string, c: char, rest: string, args: nat -> Arg, k: nat)
    requires Modifiers(m) && StyleOf(c, zero, -1).Some? && (zero || m == "" || m[0] != '0')
    ensures StyleOf(c, zero, WidthRead(m, -1, false)).Some?
    ensures Render(Directive(zero, m, c) + rest, args, k) ==
            Field(args(k).word, StyleOf(c, zero, WidthRead(m, -1, false)).value) + Render(rest, args, k + 1)
  {
    hide Field, Render, WidthRead, StyleOf, TakesArg, Directive;
    AnyWidth(c, zero, -1, WidthRead(m, -1, false));
    LetterTakesArg(c, zero, -1);
    DirectiveRenders(zero, m, c, rest, args, k);
  }

  lemma {:induction false} PercentStart(zero: bool, tail: string, args: nat -> Arg, k: nat)
    requires tail != [] && tail[0] != '%' && (zero || tail[0] != '0')
    ensures Render(['%'] + (if zero then ['0'] + tail else tail), args, k) ==
            RenderOther(tail, args, k, zero, -1, -1)
  {
    hide Render, RenderFirst, RenderOther;
    if zero {
      CharsStep('%', ['0'] + tail, args, k);
      FirstStep('0', tail, args, k);
    } else {
      CharsStep('%', tail, args, k);
      FirstStep(tail[0], tail[1..], args, k);
      assert tail == [tail[0]] + tail[1..];
    }
  }

  /** What an integer directive prints reads back as the argument, and is as long as the width asks for, or longer if the
      number is. */
  lemma DirectiveReadsBack(zero: bool, m: string, c: char, args: nat -> Arg)
    requires Modifiers(m) && StyleOf(c, zero, -1).Some? && (zero || m == "" || m[0] != '0')
    ensures StyleOf(c, zero, WidthRead(m, -1, false)).Some?
    ensures var width, out := WidthRead(m, -1, false), Render(Directive(zero, m, c), args, 0);
            var style := StyleOf(c, zero, width).value;
            && Parse(out, style.base) == Some(Meaning(args(0).word, style))
            && |out| == if width > |Natural(args(0).word, style)| then width else |Natural(args(0).word, style)|
  {
    hide Field, Parse, Natural, Render, WidthRead;
    DirectivePrints(zero, m, c, "", args, 0);
    var style := StyleOf(c, zero, WidthRead(m, -1, false)).value;
    assert Directive(zero, m, c) + "" == Directive(zero, m, c);
    assert Render("", args, 1) == "" by {
      NothingLeft(Chars, args, 1, false, -1, -1);
    }
    FieldReadsBack(args(0).word, style);
    assert Field(args(0).word, style) + "" == Field(args(0).word, style);
  }

  /** A directive alone. */
  lemma Alone(zero: bool, m: string, c: char, args: nat -> Arg, k: nat)
    requires Modifiers(m) && Letter(c) && c != '%' && (zero || m == "" || m[0] != '0')
    ensures Render("%" + (if zero then "0" else "") + m + [c], args, k) == Converted(c, args(k), zero, WidthRead(m, -1, false))
  {
    hide Render, Converted, WidthRead;
    var j := if TakesArg(c) then k + 1 else k;
    DirectiveRenders(zero, m, c, "", args, k);
    NothingLeft(Chars, args, j, false, -1, -1);
    assert Directive(zero, m, c) + "" == Directive(zero, m, c);
    var printed := Converted(c, args(k), zero, WidthRead(m, -1, false));
    assert printed + "" == printed;
  }

  /** Letter by letter, what a directive prints for a word, whatever its flag, width, precision and length: %d and %i the
      number between -2^31 and 2^31 that the word stands for, the others the word itself, in the base of the letter. */
  lemma LettersRead(zero: bool, m: string, args: nat -> Arg, k: nat)
    requires Modifiers(m) && (zero || m == "" || m[0] != '0')
    ensures var p, w := "%" + (if zero then "0" else "") + m, args(k).word;
            && Parse(Render(p + ['d'], args, k), 10) == Some(if w >= 0x8000_0000 then w - 0x1_0000_0000 else w)
            && Parse(Render(p + ['i'], args, k), 10) == Some(if w >= 0x8000_0000 then w - 0x1_0000_0000 else w)
            && Parse(Render(p + ['u'], args, k), 10) == Some(w)
            && Parse(Render(p + ['o'], args, k), 8) == Some(w)
            && Parse(Render(p + ['x'], args, k), 16) == Some(w)
            && Parse(Render(p + ['X'], args, k), 16) == Some(w)
  {
    hide Render, WidthRead, Parse, Field;
    LetterReads(zero, m, 'd', args, k);
    LetterReads(zero, m, 'i', args, k);
    LetterReads(zero, m, 'u', args, k);
    LetterReads(zero, m, 'o', args, k);
    LetterReads(zero, m, 'x', args, k);
    LetterReads(zero, m, 'X', args, k);
  }

  lemma LetterReads(zero: bool, m: string, c: char, args: nat -> Arg, k: nat)
    requires Modifiers(m) && StyleOf(c, zero, -1).Some? && (zero || m == "" || m[0] != '0')
    ensures StyleOf(c, zero, WidthRead(m, -1, false)).Some?
    ensures var style, out := StyleOf(c, zero, WidthRead(m, -1, false)).value,
                              Render("%" + (if zero then "0" else "") + m + [c], args, k);
            && out == Field(args(k).word, style)
            && Parse(out, style.base) == Some(Meaning(args(k).word, style))
  {
    hide Render, WidthRead, Parse, Field;
    Alone(zero, m, c, args, k);
    FieldReadsBack(args(k).word, StyleOf(c, zero, WidthRead(m, -1, false)).value);
  }

  /** %x prints its letters small and %X large. */
  lemma HexLetters(zero: bool, m: string, args: nat -> Arg, k: nat)
    requires Modifiers(m) && (zero || m == "" || m[0] != '0')
    ensures var p := "%" + (if zero then "0" else "") + m;
            && (forall ch :: ch in Render(p + ['x'], args, k) ==> ch == ' ' || '0' <= ch <= '9' || 'a' <= ch <= 'f')
            && (forall ch :: ch in Render(p + ['X'], args, k) ==> ch == ' ' || '0' <= ch <= '9' || 'A' <= ch <= 'F')
  {
    hide Render, WidthRead, Parse, Field;
    LetterReads(zero, m, 'x', args, k);
    LetterReads(zero, m, 'X', args, k);
    FieldLetters(args(k).word, StyleOf('x', zero, WidthRead(m, -1, false)).value);
    FieldLetters(args(k).word, StyleOf('X', zero, WidthRead(m, -1, false)).value);
  }

  lemma FieldLetters(v: nat, f: Style)
    requires v < U32 && f.Valid() && !f.signed
    ensures forall ch :: ch in Field(v, f) ==>
              ch == ' ' || '0' <= ch <= '9' || (if f.upper then 'A' <= ch <= 'F' else 'a' <= ch <= 'f')
  {
    hide Digits;
    DigitsRead(v, f.base, f.upper);
  }

  /** How a directive fills its width, told by what the same letter prints without one: blanks in front, or with the
      zero flag zeros behind the sign. A number that is too long is not cut. */
  lemma WidthFills(zero: bool, m: string, c: char, args: nat -> Arg, k: nat)
    requires Modifiers(m) && c in ['d', 'i', 'u', 'o', 'x', 'X'] && (zero || m == "" || m[0] != '0')
    ensures var plain, width := Render("%" + [c], args, k), WidthRead(m, -1, false);
            var missing := if width > |plain| then width - |plain| else 0;
            && plain != "" && ' ' !in plain
            && Render("%" + (if zero then "0" else "") + m + [c], args, k) ==
               if !zero then seq(missing, _ => ' ') + plain
               else if plain[0] == '-' then "-" + seq(missing, _ => '0') + plain[1..]
               else seq(missing, _ => '0') + plain
  {
    hide Render, WidthRead, Parse, Field, Natural, Negative, Meaning, StyleOf;
    var width := WidthRead(m, -1, false);
    StyleParts(c, zero, width);
    var f := StyleOf(c, false, -1).value;
    LetterReads(zero, m, c, args, k);
    LetterReads(false, "", c, args, k);
    NoWidth(c);
    FieldFills(args(k).word, f.(zero := zero, width := width));
    PlainField(args(k).word, f);
    SameNatural(args(k).word, f, zero, width);
  }

  lemma NoWidth(c: char)
    ensures WidthRead("", -1, false) == -1 && "%" + "" + "" + [c] == "%" + [c]
  {
  }

  lemma StyleParts(c: char, zero: bool, width: int)
    requires c in ['d', 'i', 'u', 'o', 'x', 'X']
    ensures StyleOf(c, false, -1).Some? && StyleOf(c, zero, -1).Some?
    ensures var f := StyleOf(c, false, -1).value;
            f.Valid() && !f.zero && f.width == -1 && StyleOf(c, zero, width) == Some(f.(zero := zero, width := width))
  {
  }

  lemma SameNatural(v: nat, f: Style, zero: bool, width: int)
    requires v < U32 && f.Valid()
    ensures Natural(v, f.(zero := zero, width := width)) == Natural(v, f)
    ensures Negative(v, f.(zero := zero, width := width)) == Negative(v, f)
  {
    hide Digits;
  }

  lemma PlainField(v: nat, f: Style)
    requires v < U32 && f.Valid() && !f.zero && f.width == -1
    ensures Field(v, f) == Natural(v, f) && Natural(v, f) != "" && ' ' !in Natural(v, f)
    ensures Natural(v, f)[0] == '-' <==> Negative(v, f)
  {
    hide Digits;
    var digits := Digits(Magnitude(v, f), f.base, f.upper);
    DigitsRead(Magnitude(v, f), f.base, f.upper);
    assert DigitOf(digits[0]) < f.base;
    assert Repeat(' ', -1) == "";
  }

  lemma FieldFills(v: nat, f: Style)
    requires v < U32 && f.Valid()
    ensures var plain := Natural(v, f);
            var missing := if f.width > |plain| then f.width - |plain| else 0;
            Field(v, f) == if !f.zero then seq(missing, _ => ' ') + plain
                           else if Negative(v, f) then "-" + seq(missing, _ => '0') + plain[1..]
                           else seq(missing, _ => '0') + plain
  {
    hide Digits, Repeat, Field, Filled, Natural;
    FieldIs(v, f);
    FilledFills(if Negative(v, f) then "-" else "", Digits(Magnitude(v, f), f.base, f.upper), f.width, f.zero);
  }

  lemma FilledFills(sign: string, digits: string, width: int, zero: bool)
    requires sign == "" || sign == "-"
    ensures var plain := sign + digits;
            var missing := if width > |plain| then width - |plain| else 0;
            Filled(sign, digits, width - |digits| - |sign|, zero) ==
              if !zero then seq(missing, _ => ' ') + plain
              else if sign == "-" then "-" + seq(missing, _ => '0') + plain[1..]
              else seq(missing, _ => '0') + plain
  {
    var plain := sign + digits;
    var missing := if width > |plain| then width - |plain| else 0;
    assert Repeat('0', width - |digits| - |sign|) == seq(missing, _ => '0');
    assert Repeat(' ', width - |digits| - |sign|) == seq(missing, _ => ' ');
    hide Repeat;
    var zeros, blanks := seq(missing, _ => '0'), seq(missing, _ => ' ');
    assert blanks + sign + digits == blanks + plain;
    if sign == "-" {
      assert plain[1..] == digits;
    } else {
      assert plain == digits && sign + zeros + digits == zeros + plain;
    }
  }

  /** %c and %s, with blanks in front up to the width, zero flag or not. */
  lemma OthersPrint(zero: bool, m: string, args: nat -> Arg, k: nat)
    requires Modifiers(m) && (zero || m == "" || m[0] != '0')
    ensures var p, width, text := "%" + (if zero then "0" else "") + m, WidthRead(m, -1, false), args(k).text;
            && Render(p + ['c'], args, k) ==
               seq(if width > 1 then width - 1 else 0, _ => ' ') + [(args(k).word % 256) as char]
            && Render(p + ['s'], args, k) == seq(if width > |text| then width - |text| else 0, _ => ' ') + text
  {
    hide Render, WidthRead;
    Alone(zero, m, 'c', args, k);
    Alone(zero, m, 's', args, k);
    var width, text := WidthRead(m, -1, false), args(k).text;
    assert Repeat(' ', width - 1) == seq(if width > 1 then width - 1 else 0, _ => ' ');
    assert Repeat(' ', width - |text|) == seq(if width > |text| then width - |text| else 0, _ => ' ');
  }

  /** A format is printed piece by piece: a directive takes the next argument if its letter is one of eight, any other
      letter prints nothing. */
  lemma PieceByPiece(zero: bool, m: string, c: char, rest: string, args: nat -> Arg, k: nat)
    requires Modifiers(m) && c != '.' && c != 'l' && c != '%' && !('0' <= c <= '9') && (zero || m == "" || m[0] != '0')
    ensures var directive := "%" + (if zero then "0" else "") + m + [c];
            if c in ['d', 'i', 'u', 'o', 'x', 'X', 'c', 's'] then
              Render(directive + rest, args, k) == Render(directive, args, k) + Render(rest, args, k + 1)
            else
              Render(directive + rest, args, k) == Render(rest, args, k)
  {
    hide Render, WidthRead, Converted;
    Alone(zero, m, c, args, k);
    DirectiveRenders(zero, m, c, rest, args, k);
    if c !in ['d', 'i', 'u', 'o', 'x', 'X', 'c', 's'] {
      NoConversion(c, args(k), zero, WidthRead(m, -1, false));
      assert "" + Render(rest, args, k) == Render(rest, args, k);
    }
  }

  lemma NoConversion(c: char, a: Arg, zero: bool, width: int)
    requires c !in ['d', 'i', 'u', 'o', 'x', 'X', 'c', 's']
    ensures Converted(c, a, zero, width) == ""
  {
  }

  /** Two percent signs print one, and text without any prints itself. */
  lemma {:induction false} TextPrints(text: string, rest: string, args: nat -> Arg, k: nat)
    requires '%' !in text
    ensures Render("%%" + rest, args, k) == "%" + Render(rest, args, k)
    ensures Render(text + rest, args, k) == text + Render(rest, args, k)
    ensures Render("", args, k) == ""
    decreases |text|
  {
    hide Render, RenderFirst, RenderOther;
    NothingLeft(Chars, args, k, false, -1, -1);
    CharsStep('%', ['%'] + rest, args, k);
    FirstStep('%', rest, args, k);
    assert ['%'] + (['%'] + rest) == "%%" + rest;
    if text == "" {
      assert text + rest == rest && "" + Render(rest, args, k) == Render(rest, args, k);
    } else {
      CharsStep(text[0], text[1..] + rest, args, k);
      TextPrints(text[1..], rest, args, k);
      assert [text[0]] + (text[1..] + rest) == text + rest;
      assert text[0] != '%';
    }
  }

  /** The width is the number written before the point; the point, what follows it, and the length letter do not change
      it. */
  lemma WidthIsNumber(s: string, t: string)
    requires forall k :: 0 <= k < |s| ==> '0' <= s[k] <= '9'
    requires t == "" || t[0] == '.' || t == "l"
    ensures WidthRead(s + t, -1, false) == if s == "" then -1 else Value(s, 10)
  {
    hide Value, WidthRead;
    WidthIsValue(s, t);
    WidthStays(t, if s == "" then -1 else Value(s, 10), false);
  }

  lemma {:induction false} WidthStays(t: string, before: int, pointed: bool)
    requires pointed || t == "" || t[0] == '.' || t == "l"
    ensures WidthRead(t, before, pointed) == before
    decreases |t|
  {
    if t != "" {
      WidthStays(t[1..], before, pointed || t[0] == '.');
    }
  }

  /** In letters: 47 and -7. */
  lemma PrintedLiterally(args: nat -> Arg)
    requires args(0).word == 47 && args(1).word == 0x1_0000_0000 - 7
    ensures Render("%d", args, 0) == "47" && Render("%u", args, 0) == "47" && Render("%o", args, 0) == "57"
    ensures Render("%x", args, 0) == "2f" && Render("%X", args, 0) == "2F"
    ensures Render("%d", args, 1) == "-7" && Render("%i", args, 1) == "-7"
  {
    hide Render, Digits;
    Unpadded('d', args, 0);
    Unpadded('u', args, 0);
    Unpadded('o', args, 0);
    Unpadded('x', args, 0);
    Unpadded('X', args, 0);
    Unpadded('d', args, 1);
    Unpadded('i', args, 1);
    TwoDigits();
  }

  lemma TwoDigits()
    ensures Digits(47, 10, false) == "47" && Digits(47, 8, false) == "57" && Digits(7, 10, false) == "7"
    ensures Digits(47, 16, false) == "2f" && Digits(47, 16, true) == "2F"
  {
  }

  lemma Unpadded(c: char, args: nat -> Arg, k: nat)
    requires c in ['d', 'i', 'u', 'o', 'x', 'X']
    ensures StyleOf(c, false, -1).Some? && Render(['%', c], args, k) == Natural(args(k).word, StyleOf(c, false, -1).value)
  {
    hide Render, Parse, Field, Natural, Negative, Meaning, StyleOf, WidthRead;
    StyleParts(c, false, -1);
    NoWidth(c);
    LetterReads(false, "", c, args, k);
    PlainField(args(k).word, StyleOf(c, false, -1).value);
    assert ['%'] + [c] == ['%', c];
  }

  /** A number in front of the letter is the width; without one there is none. */
  lemma {:induction false} WidthWritten(width: nat)
    ensures Modifiers(Digits(width, 10, false)) && WidthRead(Digits(width, 10, false), -1, false) == width
    ensures width > 0 ==> Digits(width, 10, false)[0] != '0'
    ensures WidthRead("", -1, false) == -1
  {
    var w := Digits(width, 10, false);
    DigitsRead(width, 10, false);
    if width > 0 {
      FirstNotZero(width, 10, false);
    }
    DecimalDigits(w);
    WidthIsValue(w, "");
    assert w + "" == w;
  }

  lemma DecimalDigits(w: string)
    requires Uniform(w, 10, false)
    ensures Modifiers(w) && forall k :: 0 <= k < |w| ==> '0' <= w[k] <= '9'
  {
  }

  /** Digits read after others, as the width so far. */
  lemma {:induction false} WidthIsValue(s: string, t: string)
    requires forall k :: 0 <= k < |s| ==> '0' <= s[k] <= '9'
    ensures WidthRead(s + t, -1, false) == WidthRead(t, if s == "" then -1 else Value(s, 10), false)
    decreases |s|
  {
    hide Value, DigitOf;
    if s == "" {
      assert s + t == t;
    } else {
      var n := |s| - 1;
      WidthIsValue(s[..n], [s[n]] + t);
      assert s + t == s[..n] + ([s[n]] + t);
      assert ([s[n]] + t)[1..] == t;
      ValueLast(s, 10);
      NoDigits(10, false);
    }
  }

  /** What the small printf prints. */
  function SmallRender(fmt: string, args: nat -> Arg, k: nat): string
  {
    if fmt == [] || fmt == "%" then ""
    else if fmt[0] != '%' then [fmt[0]] + SmallRender(fmt[1..], args, k)
    else
      SmallConverted(fmt[1], args(k)) + SmallRender(fmt[2..], args, if SmallTakesArg(fmt[1]) then k + 1 else k)
  }

  function SmallConverted(c: char, a: Arg): string
  {
    if c == '%' then "%"
    else if c == 'c' then [Byte(a.word)]
    else if c == 'x' then Digits(a.word, 16, false)
    else if c == 's' then a.text
    else ""
  }

  predicate SmallTakesArg(c: char) {
    c == 'c' || c == 'x' || c == 's'
  }

  /** alt_printf. */
  method AltPrintf(fmt: string, args: nat -> Arg) returns (out: string)
    ensures out == SmallRender(fmt, args, 0)
  {
    hide SmallRender, SmallConverted, SmallTakesArg;
    out := "";
    var i, k := 0, 0;
    assert fmt[0..] == fmt && "" + SmallRender(fmt, args, 0) == SmallRender(fmt, args, 0);
    while i < |fmt|
      invariant i <= |fmt|
      invariant SmallRender(fmt, args, 0) == out + SmallRender(fmt[i..], args, k)
    {
      ghost var left := fmt[i..];
      SmallStep(left, args, k);
      var c := fmt[i];
      i := i + 1;
      assert fmt[i..] == left[1..];
      if c != '%' {
        Joined(out, [c], SmallRender(fmt[i..], args, k));
        out := out + [c];
      } else {
        if i == |fmt| {
          assert left == "%" && out + "" == out;
          return;
        }
        c := fmt[i];
        i := i + 1;
        assert fmt[i..] == left[2..];
        Joined(out, SmallConverted(c, args(k)), SmallRender(fmt[i..], args, if SmallTakesArg(c) then k + 1 else k));
        out := SmallConvert(out, c, args(k));
        if SmallTakesArg(c) {
          k := k + 1;
        }
      }
    }
    SmallStep([], args, k);
    assert fmt[i..] == [] && out + "" == out;
  }

  lemma Joined(a: string, b: string, c: string)
    ensures a + (b + c) == a + b + c
  {
  }

  /** The letter behind a percent sign. */
  method SmallConvert(out: string, c: char, a: Arg) returns (out': string)
    ensures out' == out + SmallConverted(c, a)
  {
    hide Field, Digits;
    HexField(a.word);
    out' := out;
    if c == '%' {
      out' := out' + [c];
    } else if c == 'c' {
      out' := out' + [Byte(a.word)];
    } else if c == 'x' {
      out' := PrintHex(out', a.word);
    } else if c == 's' {
      out' := out' + a.text;
    }
  }

  lemma SmallStep(fmt: string, args: nat -> Arg, k: nat)
    ensures fmt == [] || fmt == "%" ==> SmallRender(fmt, args, k) == ""
    ensures |fmt| > 0 && fmt[0] != '%' ==> SmallRender(fmt, args, k) == [fmt[0]] + SmallRender(fmt[1..], args, k)
    ensures |fmt| > 1 && fmt[0] == '%' ==>
              SmallRender(fmt, args, k) ==
              SmallConverted(fmt[1], args(k)) + SmallRender(fmt[2..], args, if SmallTakesArg(fmt[1]) then k + 1 else k)
  {
  }

  /** No directive that only the log printf knows: none with a width, a precision or a length, and no other integer
      than %x. */
  predicate Common(fmt: string)
  {
    if |fmt| <= 1 then true
    else if fmt[0] != '%' then Common(fmt[1..])
    else !('0' <= fmt[1] <= '9') && fmt[1] !in ['.', 'l', 'd', 'i', 'u', 'o', 'X'] && Common(fmt[2..])
  }

  /** The two printfs, one dividing and the other shifting, print the same for every format both know. */
  lemma {:induction false} PrintfsAgree(fmt: string, args: nat -> Arg, k: nat)
    requires Common(fmt)
    ensures Render(fmt, args, k) == SmallRender(fmt, args, k)
    decreases |fmt|
  {
    hide Render, SmallRender, Field, RenderFirst, RenderOther;
    SmallStep(fmt, args, k);
    if fmt == [] {
      NothingLeft(Chars, args, k, false, -1, -1);
    } else {
      var c, rest := fmt[0], fmt[1..];
      assert fmt == [c] + rest;
      CharsStep(c, rest, args, k);
      if c != '%' {
        PrintfsAgree(rest, args, k);
      } else if rest == [] {
        NothingLeft(FirstFmtChar, args, k, false, -1, -1);
      } else {
        var d, tail := rest[0], rest[1..];
        assert rest == [d] + tail && fmt[2..] == tail;
        FirstStep(d, tail, args, k);
        OtherStep(d, tail, args, k, false, -1, -1);
        PrintfsAgree(tail, args, if SmallTakesArg(d) then k + 1 else k);
        if d != '%' {
          SameConversion(d, args(k));
        }
      }
    }
  }

  lemma SameConversion(d: char, a: Arg)
    requires !('0' <= d <= '9') && d !in ['.', 'l', 'd', 'i', 'u', 'o', 'X', '%']
    ensures Converted(d, a, false, -1) == SmallConverted(d, a)
    ensures TakesArg(d) <==> SmallTakesArg(d)
  {
    HexField(a.word);
    hide Field, Digits;
    assert "" + [Byte(a.word)] == [Byte(a.word)] && "" + a.text == a.text;
  }

  method BothPrintfs(fmt: string, args: nat -> Arg) returns (log: string, small: string)
    ensures Common(fmt) ==> log == small
  {
    log := LogPrintf(fmt, args);
    small := AltPrintf(fmt, args);
    if Common(fmt) {
      PrintfsAgree(fmt, args, 0);
    }
  }
}
