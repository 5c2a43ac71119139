/**
  Comparison of one field of the input with the same field of the
  reference, as `Schema::compare(int, string, string, double)` and the
  per-type comparators of verify.cpp do it.

  A comparison ends in a verdict, in an error blamed on one of the two files
  (the source's `SchemaInputFileException` and
  `SchemaReferenceFileException`), or in an exception of `std::stoi` /
  `std::stol` that nothing catches and that ends the program (`Abort`).
*/
module Comparison {
  import opened Numbers
  import opened SchemaParser
  import opened FixedPointDecimal
  import opened DecimalMeaning

  datatype Side = Input | Reference

  datatype Outcome = Verdict(equal: bool) | Blame(side: Side, message: string) | Abort

  const NullText: string := "null"

  /** Both texts read by `std::stoi` (IntMin..IntMax) or `std::stol` (LongMin..LongMax), and compared. */
  function CompareParsed(input: string, reference: string, lo: int, hi: int): (o: Outcome)
    ensures o.Verdict? <==> ParseInteger(input, lo, hi).Parsed? && ParseInteger(reference, lo, hi).Parsed?
    ensures o.Verdict? ==> (o.equal <==> ParseInteger(input, lo, hi).value == ParseInteger(reference, lo, hi).value)
    ensures !o.Blame?
  {
    var i := ParseInteger(input, lo, hi);
    var r := ParseInteger(reference, lo, hi);
    if i.Parsed? && r.Parsed? then Verdict(i.value == r.value) else Abort
  }

  function CompareInteger(input: string, reference: string): Outcome
  {
    CompareParsed(input, reference, IntMin, IntMax)
  }

  function CompareBigInt(input: string, reference: string): Outcome
  {
    CompareParsed(input, reference, LongMin, LongMax)
  }

  /** Dates are compared as the numbers `std::stol` reads from them. */
  function CompareDate(input: string, reference: string): Outcome
  {
    CompareParsed(input, reference, LongMin, LongMax)
  }

  /**
    `text.length() > length`: the declared `int` length is converted to the
    unsigned `size_t` of the text's length, so a negative length becomes a
    number near 2^64 that no text exceeds.
  */
  predicate ExceedsLength(text: string, length: int)
  {
    |text| > Wrap(length)
  }

  /** Varchar and char fields: each side within the declared length, the input checked first, then equal texts. */
  function CompareText(input: string, reference: string, length: int, message: string): Outcome
  {
    if ExceedsLength(input, length) then Blame(Input, message)
    else if ExceedsLength(reference, length) then Blame(Reference, message)
    else Verdict(input == reference)
  }

  function CompareVarchar(input: string, reference: string, length: int): Outcome
  {
    CompareText(input, reference, length, "varchar field exceeds length")
  }

  function CompareChar(input: string, reference: string, length: int): Outcome
  {
    CompareText(input, reference, length, "character field exceeds length")
  }

  // ---------------------------------------------------------------------------
  // Decimals
  // ---------------------------------------------------------------------------

  function Abs(x: real): real { if x < 0.0 then -x else x }

  /** The number a decimal pair stands for: the integer part plus the fraction over 10^precision. */
  function DecimalValue(d: Decimal, precision: int): real
  {
    d.first as real + d.second as real / Pow10(if precision >= 0 then precision else 0) as real
  }

  /**
    `fabs(input - reference) / reference * 100.0 < epsilon`: the relative
    difference in percent. A zero reference gives an infinite or undefined
    quotient, which is never below epsilon.
  */
  predicate WithinTolerance(inputValue: real, referenceValue: real, epsilon: real)
  {
    referenceValue != 0.0 && Abs(inputValue - referenceValue) / referenceValue * 100.0 < epsilon
  }

  /**
    Decimal fields: with no tolerance the two pairs must be equal; otherwise
    the numbers they stand for must be within `epsilon` percent of each other.
    `parseDecimal` never fails (its length check is disabled), so neither
    side is ever blamed.
  */
  function CompareDecimal(input: string, reference: string, length: int, precision: int, epsilon: real): Outcome
  {
    var i := DecimalOf(input, precision);
    var r := DecimalOf(reference, precision);
    if epsilon == 0.0 then Verdict(i == r)
    else Verdict(WithinTolerance(DecimalValue(i, precision), DecimalValue(r, precision), epsilon))
  }

  // The tolerant path as the source writes it: `fractionToDouble`.

  /** The conversion of a `uint64_t` to `int`: the low 32 bits, read as a signed number. */
  function ToInt32(x: int): (r: int)
    ensures IntMin <= r <= IntMax
  {
    var low := x % 0x1_0000_0000;
    if low > IntMax then low - 0x1_0000_0000 else low
  }

  /** `floor(log10(n)) + 1` for n >= 1, and 1 for 0: the number of decimal digits of n. */
  function NumberOfDigits(n: nat): (k: nat)
    ensures k >= 1
    ensures n < Pow10(k) && (k > 1 ==> Pow10(k - 1) <= n)
  {
    if n < 10 then 1 else 1 + NumberOfDigits(n / 10)
  }

  function AbsInt(x: int): nat { if x < 0 then -x else x }

  /** `fractionToDouble`: the fraction over 10 to the number of its own digits. */
  function FractionToDouble(fraction: int): (r: real)
    ensures -1.0 < r < 1.0
    ensures fraction >= 0 <==> r >= 0.0
  {
    var d := Pow10(NumberOfDigits(AbsInt(fraction)));
    ProperFraction(fraction as real, d as real);
    fraction as real / d as real
  }

  /** A quotient by a positive number keeps the sign of its dividend, and one
      whose dividend is smaller in magnitude than its divisor lies strictly
      between -1 and 1. */
  lemma ProperFraction(f: real, d: real)
    requires d > 0.0 && -d < f < d
    ensures -1.0 < f / d < 1.0 && (f >= 0.0 <==> f / d >= 0.0)
  {
    var q := f / d;
    assert q * d == f;
    assert (1.0 - q) * d == d - f;
    PositiveFactor(1.0 - q, d);
    assert (1.0 + q) * d == d + f;
    PositiveFactor(1.0 + q, d);
    if f >= 0.0 {
      NonNegativeFactor(q, d);
    }
  }

  lemma PositiveFactor(x: real, d: real)
    requires d > 0.0 && x * d > 0.0
    ensures x > 0.0
  {
  }

  lemma NonNegativeFactor(x: real, d: real)
    requires d > 0.0 && x * d >= 0.0
    ensures x >= 0.0
  {
  }

  function AsWrittenValue(d: Decimal): real
  {
    d.first as real + FractionToDouble(ToInt32(d.second))
  }

  /** `compareDecimal` as written, with the tolerant path through `fractionToDouble`. */
  function CompareDecimalAsWritten(input: string, reference: string, length: int, precision: int, epsilon: real): (o: Outcome)
    ensures o.Verdict?
    ensures epsilon == 0.0 ==> o == CompareDecimal(input, reference, length, precision, epsilon)
  {
    var i := DecimalOf(input, precision);
    var r := DecimalOf(reference, precision);
    if epsilon == 0.0 then Verdict(i == r)
    else Verdict(WithinTolerance(AsWrittenValue(i), AsWrittenValue(r), epsilon))
  }

  // ---------------------------------------------------------------------------
  // One field
  // ---------------------------------------------------------------------------

  /**
    `Schema::compare(int, ...)`: two nulls are equal in a nullable column; a
    null in a column declared not null is blamed on its file, the input
    first; otherwise the column's type decides. A null on one side only of a
    nullable column is compared as an ordinary value. Decimals take the
    source's tolerant path, through `fractionToDouble`.
  */
  function CompareField(a: Attribute, input: string, reference: string, epsilon: real): (o: Outcome)
    ensures o.Abort? ==> a.attrType in {Integer, BigInt, Date}
    ensures o.Blame? ==> o.message == "null not allowed" || a.attrType in {Varchar, Char}
    ensures a.attrType == AttributeType.Decimal && epsilon != 0.0 && !(a.nullable && input == NullText && reference == NullText) && o.Verdict?
      ==> o.equal == WithinTolerance(AsWrittenValue(DecimalOf(input, a.precision)), AsWrittenValue(DecimalOf(reference, a.precision)), epsilon)
  {
    if a.nullable && input == NullText && reference == NullText then Verdict(true)
    else if !a.nullable && input == NullText then Blame(Input, "null not allowed")
    else if !a.nullable && reference == NullText then Blame(Reference, "null not allowed")
    else
      match a.attrType
      case Integer => CompareInteger(input, reference)
      case BigInt => CompareBigInt(input, reference)
      case Varchar => CompareVarchar(input, reference, a.length)
      case Char => CompareChar(input, reference, a.length)
      case Decimal => CompareDecimalAsWritten(input, reference, a.length, a.precision, epsilon)
      case Date => CompareDate(input, reference)
  }

  // ---------------------------------------------------------------------------
  // Properties
  // ---------------------------------------------------------------------------

  /** A declared length after `std::stoi` is exceeded exactly when it is not negative and the text is longer. */
  lemma ExceedsLengthMeaning(text: string, length: int)
    requires IntMin <= length <= IntMax && |text| < 0x8000_0000_0000_0000
    ensures ExceedsLength(text, length) <==> 0 <= length < |text|
  {
    if length < 0 {
      assert Wrap(length + Uint64Modulus) == length + Uint64Modulus;
    }
  }

  /** An integer field reads only its leading digits: anything after them, and leading zeros, do not matter. */
  lemma IntegerReadsLeadingDigits(digits: string, rest: string, other: string)
    requires digits != [] && AllDigits(digits) && Horner(digits) <= IntMax
    requires rest == [] || !IsDigit(rest[0])
    requires other != [] && AllDigits(other) && Horner(other) == Horner(digits)
    ensures CompareInteger(digits + rest, other) == Verdict(true)
  {
    ParseLeadingDigits(digits, rest, IntMin, IntMax);
    ParseLeadingDigits(other, [], IntMin, IntMax);
    assert other + [] == other;
  }

  /**
    The null rule: two nulls are equal in a nullable column, and in a column
    declared not null a null is blamed on the file it comes from, the input
    before the reference; "null not allowed" is reported for nothing else.
  */
  lemma NullRule(a: Attribute, input: string, reference: string, epsilon: real)
    ensures a.nullable && input == NullText && reference == NullText ==> CompareField(a, input, reference, epsilon) == Verdict(true)
    ensures CompareField(a, input, reference, epsilon) == Blame(Input, "null not allowed")
        <==> !a.nullable && input == NullText
    ensures CompareField(a, input, reference, epsilon) == Blame(Reference, "null not allowed")
        <==> !a.nullable && input != NullText && reference == NullText
  {
    assert "null not allowed" != "varchar field exceeds length";
    assert "null not allowed" != "character field exceeds length";
  }

  /**
    Varchar and char fields: a text over the declared length is blamed on
    its file, the input whenever it is too long, the reference only when
    the input is not; texts within the length are equal exactly when they
    are identical.
  */
  lemma TextLengthRule(a: Attribute, input: string, reference: string, epsilon: real)
    requires a.attrType == Varchar || a.attrType == Char
    requires a.nullable ==> !(input == NullText && reference == NullText)
    requires !a.nullable ==> input != NullText && reference != NullText
    ensures var o := CompareField(a, input, reference, epsilon);
      && (o.Blame? && o.side == Input <==> ExceedsLength(input, a.length))
      && (o.Blame? && o.side == Reference <==> !ExceedsLength(input, a.length) && ExceedsLength(reference, a.length))
      && (o.Verdict? ==> (o.equal <==> input == reference))
      && !o.Abort?
  {
  }

  /** Without a tolerance, a verdict does not depend on which file is the reference. */
  lemma VerdictSymmetric(a: Attribute, input: string, reference: string)
    requires CompareField(a, input, reference, 0.0).Verdict?
    ensures CompareField(a, reference, input, 0.0) == CompareField(a, input, reference, 0.0)
  {
  }

  /**
    Without a tolerance, a value is never found different from itself; it may
    only be refused, and then the input is blamed, since it is checked first.
  */
  lemma SelfComparison(a: Attribute, value: string)
    ensures CompareField(a, value, value, 0.0) != Verdict(false)
    ensures CompareField(a, value, value, 0.0).Blame? ==> CompareField(a, value, value, 0.0).side == Input
  {
  }

  /**
    The number a decimal text denotes: its digits without the point, over 10
    to the number of fractional digits.
  */
  function Number(integer: string, fraction: string): real
  {
    Horner(integer + fraction) as real / Pow10(|fraction|) as real
  }

  lemma RealSplit(first: int, second: int, p: int, whole: int, q: int, d: int)
    requires p > 0 && q > 0 && d > 0 && p == d * q
    requires first * p + second == whole * q
    ensures first as real + second as real / p as real == whole as real / d as real
  {
    assert (first * p + second) as real == first as real * p as real + second as real;
    assert (whole * q) as real == whole as real * q as real;
    assert p as real == d as real * q as real;
  }

  /** A decimal text that reads exactly stands for the number it denotes. */
  lemma DecimalValueIsNumber(integer: string, fraction: string, precision: int)
    requires AllDigits(integer) && AllDigits(fraction)
    requires |fraction| <= precision <= 19
    requires Horner(integer) < Uint64Modulus
    ensures DecimalValue(DecimalOf(DecimalText(integer, fraction), precision), precision) == Number(integer, fraction)
  {
    var r := DecimalOf(DecimalText(integer, fraction), precision);
    ExactDecimal(integer, fraction, precision);
    Pow10Add(|fraction|, precision - |fraction|);
    var p, q, d := Pow10(precision), Pow10(precision - |fraction|), Pow10(|fraction|);
    RealSplit(r.first, r.second, p, Horner(integer + fraction), q, d);
    assert DecimalValue(r, precision) == r.first as real + r.second as real / p as real;
  }

  /** Pairs with fractions below 10^precision stand for the same number only when they are equal. */
  lemma DecimalValueInjective(d1: Decimal, d2: Decimal, precision: nat)
    requires 0 <= d1.second < Pow10(precision) && 0 <= d2.second < Pow10(precision)
    requires DecimalValue(d1, precision) == DecimalValue(d2, precision)
    ensures d1 == d2
  {
    var p := Pow10(precision);
    ScaledBack(d1, p);
    ScaledBack(d2, p);
    assert (d1.first * p + d1.second) as real == (d2.first * p + d2.second) as real;
    SplitUnique(d1.first, d1.second, d2.first, d2.second, p);
  }

  lemma ScaledBack(d: Decimal, p: int)
    requires p > 0
    ensures (d.first as real + d.second as real / p as real) * p as real == (d.first * p + d.second) as real
  {
  }

  /** Without a tolerance, two decimal texts that read exactly are equal if and only if they denote the same number. */
  lemma ExactDecimalComparison(i1: string, f1: string, i2: string, f2: string, length: int, precision: int)
    requires AllDigits(i1) && AllDigits(f1) && AllDigits(i2) && AllDigits(f2)
    requires |f1| <= precision <= 19 && |f2| <= precision
    requires Horner(i1) < Uint64Modulus && Horner(i2) < Uint64Modulus
    ensures CompareDecimal(DecimalText(i1, f1), DecimalText(i2, f2), length, precision, 0.0)
         == Verdict(Number(i1, f1) == Number(i2, f2))
  {
    var r1 := DecimalOf(DecimalText(i1, f1), precision);
    var r2 := DecimalOf(DecimalText(i2, f2), precision);
    DecimalValueIsNumber(i1, f1, precision);
    DecimalValueIsNumber(i2, f2, precision);
    ExactDecimal(i1, f1, precision);
    ExactDecimal(i2, f2, precision);
    if Number(i1, f1) == Number(i2, f2) {
      DecimalValueInjective(r1, r2, precision);
    }
  }

  /**
    With a tolerance, two decimal texts that read exactly match when the
    numbers they denote differ by less than `epsilon` percent of the
    reference's number.
  */
  lemma TolerantDecimalComparison(i1: string, f1: string, i2: string, f2: string, length: int, precision: int, epsilon: real)
    requires AllDigits(i1) && AllDigits(f1) && AllDigits(i2) && AllDigits(f2)
    requires |f1| <= precision <= 19 && |f2| <= precision
    requires Horner(i1) < Uint64Modulus && Horner(i2) < Uint64Modulus
    requires epsilon != 0.0
    ensures CompareDecimal(DecimalText(i1, f1), DecimalText(i2, f2), length, precision, epsilon)
         == Verdict(WithinTolerance(Number(i1, f1), Number(i2, f2), epsilon))
  {
    DecimalValueIsNumber(i1, f1, precision);
    DecimalValueIsNumber(i2, f2, precision);
  }

  /**
    The source's tolerant path divides the fraction by 10 to the number of
    its own digits rather than by 10^precision, so "1.05" and "1.5" at
    precision 2 (fractions 5 and 50) both become 1.5 and match for any
    positive tolerance, while the numbers they denote differ by 30 percent.
  */
  lemma AsWrittenConfusesPlaces(input: string, reference: string, epsilon: real)
    requires input == "1.05" && reference == "1.5" && epsilon > 0.0
    ensures CompareDecimalAsWritten(input, reference, 4, 2, epsilon) == Verdict(true)
    ensures CompareDecimal(input, reference, 4, 2, epsilon) == Verdict(epsilon > 30.0)
  {
    ReadsOnePointOhFive();
    ReadsOnePointFive();
    SameAsWrittenValue();
    CorrectedValues();
    assert WithinTolerance(1.5, 1.5, epsilon);
    assert WithinTolerance(1.05, 1.5, epsilon) == (epsilon > 30.0) by {
      assert Abs(1.05 - 1.5) / 1.5 * 100.0 == 30.0;
    }
  }

  lemma CorrectedValues()
    ensures DecimalValue(FixedPointDecimal.Decimal(1, 5), 2) == 1.05
    ensures DecimalValue(FixedPointDecimal.Decimal(1, 50), 2) == 1.5
  {
    assert Pow10(2) == 100;
  }

  /** Fractions 5 and 50 both become 0.5 in `fractionToDouble`. */
  lemma SameAsWrittenValue()
    ensures AsWrittenValue(FixedPointDecimal.Decimal(1, 5)) == 1.5
    ensures AsWrittenValue(FixedPointDecimal.Decimal(1, 50)) == 1.5
  {
    assert ToInt32(5) == 5 && ToInt32(50) == 50;
    assert NumberOfDigits(5) == 1;
    assert NumberOfDigits(50) == 2;
  }

  lemma ReadsOnePointOhFive()
    ensures DecimalOf("1.05", 2) == FixedPointDecimal.Decimal(1, 5)
  {
    assert DecimalText("1", "05") == "1.05";
    assert AllDigits("1") && AllDigits("05");
    assert Horner("1") == 1;
    assert "1" + "05" == "105";
    assert Horner("105") == 105;
    ExactDecimal("1", "05", 2);
  }

  lemma ReadsOnePointFive()
    ensures DecimalOf("1.5", 2) == FixedPointDecimal.Decimal(1, 50)
  {
    assert DecimalText("1", "5") == "1.5";
    assert AllDigits("1") && AllDigits("5");
    assert Horner("1") == 1;
    assert "1" + "5" == "15";
    assert Horner("15") == 15;
    ExactDecimal("1", "5", 2);
  }
}
