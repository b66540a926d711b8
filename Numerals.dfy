/**
  The numeral parsers the dimension parser relies on.

  `ParseInt` stands for Swift's `Int(_:)` on a 64-bit platform: an optional
  sign followed by one or more decimal digits, nothing else, and `nil` when
  the value does not fit in 64 bits. `ParseDouble` stands for `Double(_:)`
  restricted to an optional sign, decimal digits and an optional decimal
  fraction; its value is the exact rational the numeral denotes.
  `FormatInt` writes an integer in decimal; it is the reference the
  parsers are checked against.
 */
module Numerals {
  import opened Optional

  /** The range of Swift's `Int` on a 64-bit platform. */
  const IntMin: int := -0x8000_0000_0000_0000
  const IntMax: int := 0x7FFF_FFFF_FFFF_FFFF

  predicate InIntRange(n: int)
  {
    IntMin <= n <= IntMax
  }

  predicate IsDigit(c: char)
  {
    '0' <= c <= '9'
  }

  predicate AllDigits(s: string)
  {
    forall i :: 0 <= i < |s| ==> IsDigit(s[i])
  }

  /** A non-empty run of decimal digits. */
  predicate IsDigitRun(s: string)
  {
    s != [] && AllDigits(s)
  }

  function DigitValue(c: char): nat
    requires IsDigit(c)
  {
    c as int - '0' as int
  }

  /** The value of a run of decimal digits, most significant first. */
  function DigitsValue(ds: string): nat
    requires AllDigits(ds)
  {
    if ds == [] then 0
    else DigitsValue(ds[..|ds| - 1]) * 10 + DigitValue(ds[|ds| - 1])
  }

  /** The value of the digits after a decimal point: 0.d1d2... is (d1 + 0.d2...) / 10. */
  function Fraction(ds: string): real
    requires AllDigits(ds)
  {
    if ds == [] then 0.0
    else (DigitValue(ds[0]) as real + Fraction(ds[1..])) / 10.0
  }

  predicate HasSign(text: string)
  {
    |text| > 0 && (text[0] == '+' || text[0] == '-')
  }

  predicate IsNegative(text: string)
  {
    |text| > 0 && text[0] == '-'
  }

  /** The numeral without its leading sign, if it has one. */
  function Magnitude(text: string): string
  {
    if HasSign(text) then text[1..] else text
  }

  /** An optional sign followed by decimal digits: the form `Int(_:)` accepts. */
  predicate IsIntNumeral(text: string)
  {
    IsDigitRun(Magnitude(text))
  }

  /** A magnitude with the sign of the numeral. */
  function Signed(negative: bool, magnitude: nat): int
  {
    if negative then -(magnitude as int) else magnitude
  }

  /** The value an integer numeral denotes, whatever its size. */
  function IntNumeralValue(text: string): int
    requires IsIntNumeral(text)
  {
    Signed(IsNegative(text), DigitsValue(Magnitude(text)))
  }

  /** An integer numeral whose value fits in 64 bits: exactly what `Int(_:)` accepts. */
  predicate IsInt64Numeral(text: string)
  {
    IsIntNumeral(text) && InIntRange(IntNumeralValue(text))
  }

  /**
    The digit loop behind `Int(_:)`, from position `i` of the magnitude `m`
    with `acc` the value read so far: each step multiplies by ten and adds
    the digit (subtracts it, for a negative numeral, so that the running
    value keeps the numeral's sign), and the read fails at the first
    character that is not a digit or as soon as the running value leaves
    the 64-bit range.
   */
  function ReadDigits(m: string, i: nat, negative: bool, acc: int): Option<int>
    requires i <= |m|
    decreases |m| - i
  {
    if i == |m| then Some(acc)
    else if !IsDigit(m[i]) then None
    else
      var d := DigitValue(m[i]);
      var next := if negative then acc * 10 - d else acc * 10 + d;
      if InIntRange(next) then ReadDigits(m, i + 1, negative, next) else None
  }

  /**
    Swift's `Int(_:)`: an optional sign and then at least one digit, read by
    the digit loop. It succeeds exactly on the integer numerals whose value
    fits in 64 bits, with that value.
   */
  function ParseInt(text: string): (n: Option<int>)
    ensures n.Some? <==> IsInt64Numeral(text)
    ensures n.Some? ==> n.value == IntNumeralValue(text)
  {
    var m := Magnitude(text);
    if m == [] then None
    else
      ReadDigitsMeaning(m, 0, IsNegative(text), 0);
      ReadDigits(m, 0, IsNegative(text), 0)
  }

  /** A prefix of a run of digits is worth no more than the whole run. */
  lemma {:induction false} DigitsValuePrefix(m: string, j: nat)
    requires AllDigits(m) && j <= |m|
    ensures DigitsValue(m[..j]) <= DigitsValue(m)
    decreases |m|
  {
    if j < |m| {
      var init := m[..|m| - 1];
      assert init[..j] == m[..j];
      DigitsValuePrefix(init, j);
    } else {
      assert m[..j] == m;
    }
  }

  /** One more digit multiplies the value of the prefix by ten and adds the digit. */
  lemma DigitsValueStep(m: string, i: nat)
    requires i < |m| && AllDigits(m[..i]) && IsDigit(m[i])
    ensures AllDigits(m[..i + 1])
    ensures DigitsValue(m[..i + 1]) == DigitsValue(m[..i]) * 10 + DigitValue(m[i])
  {
    var longer := m[..i + 1];
    assert longer[..i] == m[..i] && longer[i] == m[i];
  }

  /**
    The digit loop, started with the signed value of the digits before
    position `i`, succeeds exactly when the whole magnitude is digits whose
    signed value fits in 64 bits, and then returns that value.
   */
  lemma {:induction false} ReadDigitsMeaning(m: string, i: nat, negative: bool, acc: int)
    requires i <= |m| && AllDigits(m[..i])
    requires acc == Signed(negative, DigitsValue(m[..i])) && InIntRange(acc)
    ensures ReadDigits(m, i, negative, acc).Some? <==> AllDigits(m) && InIntRange(Signed(negative, DigitsValue(m)))
    ensures ReadDigits(m, i, negative, acc).Some? ==> ReadDigits(m, i, negative, acc).value == Signed(negative, DigitsValue(m))
    decreases |m| - i
  {
    if i == |m| {
      assert m[..i] == m;
    } else if !IsDigit(m[i]) {
      assert !AllDigits(m);
    } else {
      var d := DigitValue(m[i]);
      var next := if negative then acc * 10 - d else acc * 10 + d;
      DigitsValueStep(m, i);
      assert next == Signed(negative, DigitsValue(m[..i + 1]));
      if InIntRange(next) {
        ReadDigitsMeaning(m, i + 1, negative, next);
      } else if AllDigits(m) {
        DigitsValuePrefix(m, i + 1);
      }
    }
  }

  /** The index of the first '.', or the length when there is none. */
  function PointIndex(s: string): (p: nat)
    ensures p <= |s|
    ensures p < |s| ==> s[p] == '.'
    ensures forall i :: 0 <= i < p ==> s[i] != '.'
  {
    if s == [] || s[0] == '.' then 0 else 1 + PointIndex(s[1..])
  }

  /** The digits of a numeral before its decimal point, without the sign. */
  function WholeDigits(text: string): string
  {
    var m := Magnitude(text);
    m[..PointIndex(m)]
  }

  /**
    `Double(_:)` on an optional sign, digits, and optionally a point followed
    by digits. A result has the numeral's sign, and the digits before the
    point are its whole part: its magnitude is at least their value and
    below that value plus one.
   */
  function ParseDouble(text: string): (v: Option<real>)
    ensures v.Some? ==> IsDigitRun(WholeDigits(text))
    ensures v.Some? ==>
              var w := DigitsValue(WholeDigits(text)) as real;
              if IsNegative(text) then -(w + 1.0) < v.value <= -w else w <= v.value < w + 1.0
  {
    var m := Magnitude(text);
    var p := PointIndex(m);
    var whole := m[..p];
    var fraction := if p < |m| then m[p + 1..] else [];
    if IsDigitRun(whole) && (p < |m| ==> IsDigitRun(fraction)) then
      FractionBound(fraction);
      var size := DigitsValue(whole) as real + Fraction(fraction);
      Some(if IsNegative(text) then -size else size)
    else None
  }

  /** Digits, a point and digits, without a sign, such as "1.5". */
  predicate IsDecimalNumeral(s: string)
  {
    var p := PointIndex(s);
    p < |s| && IsDigitRun(s[..p]) && IsDigitRun(s[p + 1..])
  }

  /** The exact value of a decimal numeral: its whole part plus its decimal fraction. */
  function DecimalNumeralValue(s: string): real
    requires IsDecimalNumeral(s)
  {
    var p := PointIndex(s);
    DigitsValue(s[..p]) as real + Fraction(s[p + 1..])
  }

  /** What `Double(_:)` accepts here: an integer numeral, or a sign and a decimal numeral. */
  predicate IsRealNumeral(text: string)
  {
    IsIntNumeral(text) || IsDecimalNumeral(Magnitude(text))
  }

  /** The exact value such a numeral denotes, with its sign. */
  function RealNumeralValue(text: string): real
    requires IsRealNumeral(text)
  {
    if IsIntNumeral(text) then IntNumeralValue(text) as real
    else
      var size := DecimalNumeralValue(Magnitude(text));
      if IsNegative(text) then -size else size
  }

  /** Decimal digits of a natural number, most significant first, no leading zeros. */
  function FormatNat(n: nat): (s: string)
    ensures IsDigitRun(s)
    ensures |s| > 1 ==> s[0] != '0'
  {
    var d := ['0' + (n % 10) as char];
    if n < 10 then d else FormatNat(n / 10) + d
  }

  /** Decimal numeral of an integer: a minus sign for negative values, then the digits. */
  function FormatInt(n: int): (s: string)
    ensures s != []
    ensures forall i :: 0 <= i < |s| ==> IsDigit(s[i]) || (i == 0 && s[i] == '-')
  {
    if n < 0 then "-" + FormatNat(-n) else FormatNat(n)
  }

  // ---------------------------------------------------------------------

  /** A decimal fraction lies in [0, 1). */
  lemma {:induction false} FractionBound(ds: string)
    requires AllDigits(ds)
    ensures 0.0 <= Fraction(ds) < 1.0
    decreases |ds|
  {
    if ds != [] {
      assert AllDigits(ds[1..]);
      FractionBound(ds[1..]);
      assert DigitValue(ds[0]) <= 9;
    }
  }

  /** Reading back the digits of `n` gives `n`. */
  lemma {:induction false} DigitsValueOfFormatNat(n: nat)
    ensures DigitsValue(FormatNat(n)) == n
    decreases n
  {
    if n >= 10 {
      var s := FormatNat(n);
      var d := ['0' + (n % 10) as char];
      DigitsValueOfFormatNat(n / 10);
      assert s == FormatNat(n / 10) + d;
      assert s[..|s| - 1] == FormatNat(n / 10);
    }
  }

  /** A formatted integer is an integer numeral denoting that integer. */
  lemma FormatIntIsNumeral(n: int)
    ensures IsIntNumeral(FormatInt(n)) && IntNumeralValue(FormatInt(n)) == n
  {
    var s := FormatInt(n);
    if n < 0 {
      assert Magnitude(s) == FormatNat(-n);
      DigitsValueOfFormatNat(-n);
    } else {
      assert Magnitude(s) == FormatNat(n);
      DigitsValueOfFormatNat(n);
    }
  }

  /** `Int(_:)` reads back every formatted integer that fits in 64 bits, and no other. */
  lemma ParseIntOfFormat(n: int)
    ensures ParseInt(FormatInt(n)) == if InIntRange(n) then Some(n) else None
  {
    FormatIntIsNumeral(n);
  }

  /** Without a decimal point the point index is the end of the string. */
  lemma {:induction false} PointIndexWithoutPoint(s: string)
    requires '.' !in s
    ensures PointIndex(s) == |s|
    decreases |s|
  {
    if s != [] {
      assert '.' !in s[1..] by {
        forall i | 0 <= i < |s[1..]|
          ensures s[1..][i] != '.'
        {
          assert s[1..][i] == s[i + 1];
        }
      }
      PointIndexWithoutPoint(s[1..]);
    }
  }

  /** Without a decimal point, `Double(_:)` accepts exactly the integer numerals, at any size. */
  lemma ParseDoubleWithoutPoint(text: string)
    requires '.' !in Magnitude(text)
    ensures ParseDouble(text).Some? <==> IsIntNumeral(text)
    ensures IsIntNumeral(text) ==> ParseDouble(text) == Some(IntNumeralValue(text) as real)
  {
    var m := Magnitude(text);
    PointIndexWithoutPoint(m);
    assert m[..|m|] == m;
  }

  /** An integer numeral contains no decimal point, so `Double(_:)` reads it as an integer. */
  lemma ParseDoubleOfIntNumeral(text: string)
    requires IsIntNumeral(text)
    ensures ParseDouble(text) == Some(IntNumeralValue(text) as real)
  {
    var m := Magnitude(text);
    assert forall i :: 0 <= i < |m| ==> m[i] != '.';
    ParseDoubleWithoutPoint(text);
  }

  /** Wherever `Int(_:)` succeeds, `Double(_:)` succeeds with the same value. */
  lemma ParseDoubleExtendsParseInt(text: string)
    requires ParseInt(text).Some?
    ensures ParseDouble(text) == Some(ParseInt(text).value as real)
  {
    ParseDoubleOfIntNumeral(text);
  }

  /** `Double(_:)` reads back every formatted integer, however large. */
  lemma ParseDoubleOfFormat(n: int)
    ensures ParseDouble(FormatInt(n)) == Some(n as real)
  {
    FormatIntIsNumeral(n);
    ParseDoubleOfIntNumeral(FormatInt(n));
  }

  /** The point index skips a point-free prefix. */
  lemma {:induction false} PointIndexAfter(s: string, t: string)
    requires '.' !in s
    ensures PointIndex(s + t) == |s| + PointIndex(t)
    decreases |s|
  {
    if s == [] {
      assert s + t == t;
    } else {
      assert (s + t)[0] == s[0] != '.';
      assert (s + t)[1..] == s[1..] + t;
      assert '.' !in s[1..] by {
        forall i | 0 <= i < |s[1..]|
          ensures s[1..][i] != '.'
        {
          assert s[1..][i] == s[i + 1];
        }
      }
      PointIndexAfter(s[1..], t);
    }
  }

  /** Where the parts of "digits.digits" sit: no sign, the point right after the whole part. */
  lemma DecimalLayout(whole: string, fraction: string)
    requires IsDigitRun(whole)
    ensures var text := whole + "." + fraction;
            && Magnitude(text) == text && !IsNegative(text)
            && PointIndex(text) == |whole| < |text|
            && text[..|whole|] == whole && text[|whole| + 1..] == fraction
  {
    var text := whole + "." + fraction;
    assert text == whole + ("." + fraction);
    assert forall i :: 0 <= i < |whole| ==> whole[i] != '.';
    PointIndexAfter(whole, "." + fraction);
    assert text[0] == whole[0];
  }

  /** `Double(_:)` reads digits, a point and digits as the whole part plus the decimal fraction. */
  lemma ParseDoubleOfDecimal(whole: string, fraction: string)
    requires IsDigitRun(whole) && IsDigitRun(fraction)
    ensures ParseDouble(whole + "." + fraction) == Some(DigitsValue(whole) as real + Fraction(fraction))
  {
    DecimalLayout(whole, fraction);
  }

  /** Digits, a point and digits make a decimal numeral worth the whole part plus the fraction. */
  lemma DecimalNumeralOf(whole: string, fraction: string)
    requires IsDigitRun(whole) && IsDigitRun(fraction)
    ensures IsDecimalNumeral(whole + "." + fraction)
    ensures DecimalNumeralValue(whole + "." + fraction) == DigitsValue(whole) as real + Fraction(fraction)
  {
    DecimalLayout(whole, fraction);
  }

  /** `Double(_:)` reads a decimal numeral as its exact value. */
  lemma ParseDoubleOfDecimalNumeral(s: string)
    requires IsDecimalNumeral(s)
    ensures ParseDouble(s) == Some(DecimalNumeralValue(s))
  {
    var p := PointIndex(s);
    assert s == s[..p] + "." + s[p + 1..];
    ParseDoubleOfDecimal(s[..p], s[p + 1..]);
  }

  /**
    `Double(_:)` accepts exactly the integer numerals and the signed decimal
    numerals, and reads each as the exact value it denotes.
   */
  lemma ParseDoubleMeaning(text: string)
    ensures ParseDouble(text).Some? <==> IsRealNumeral(text)
    ensures ParseDouble(text).Some? ==> ParseDouble(text).value == RealNumeralValue(text)
  {
    var m := Magnitude(text);
    var p := PointIndex(m);
    if p == |m| {
      assert '.' !in m;
      ParseDoubleWithoutPoint(text);
      assert !IsDecimalNumeral(m);
    } else {
      assert !IsDigit(m[p]);
      assert !IsIntNumeral(text);
    }
  }

  /** An unsigned decimal numeral is a real numeral worth its decimal value. */
  lemma DecimalRealValue(s: string)
    requires IsDecimalNumeral(s)
    ensures IsRealNumeral(s) && !IsNegative(s) && RealNumeralValue(s) == DecimalNumeralValue(s)
  {
    var p := PointIndex(s);
    assert s[0] == s[..p][0] && IsDigit(s[0]);
    assert !IsDigit(s[p]);
  }

  /** A minus sign before a decimal numeral negates its value. */
  lemma NegatedDecimalValue(s: string)
    requires IsDecimalNumeral(s)
    ensures IsRealNumeral("-" + s) && RealNumeralValue("-" + s) == -DecimalNumeralValue(s)
  {
    var p := PointIndex(s);
    assert Magnitude("-" + s) == s && IsNegative("-" + s);
    assert !IsDigit(s[p]);
  }

  /** A signed decimal keeps its sign. */
  lemma SignedDecimal()
    ensures ParseDouble("-1.5") == Some(-1.5)
  {
    assert Magnitude("-1.5") == "1.5" == "1" + "." + "5";
    ParseDoubleOfDecimal("1", "5");
    assert DigitsValue("1") == 1 && Fraction("5") == 0.5;
  }

  /** A second point is refused. */
  lemma DottedDecimal()
    ensures ParseDouble("1.2.3") == None
  {
    assert Magnitude("1.2.3") == "1.2.3" && PointIndex("1.2.3") == 1;
    assert "1.2.3"[2..] == "2.3" && !IsDigit("2.3"[1]);
  }

  /** A decimal fraction is read by `Double(_:)` and refused by `Int(_:)`. */
  lemma OneAndAHalf()
    ensures ParseDouble("1.5") == Some(1.5)
    ensures ParseInt("1.5") == None
  {
    assert "1.5" == "1" + "." + "5";
    ParseDoubleOfDecimal("1", "5");
    assert DigitsValue("1") == 1 && DigitsValue("5") == 5;
    assert Fraction("5") == 0.5;
    assert !IsDigit("1.5"[1]);
  }
}
