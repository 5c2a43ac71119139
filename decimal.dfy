/**
  Fixed-point decimals as `Schema::parseDecimal` reads them (verify.cpp).

  A decimal text becomes a pair of unsigned 64-bit integers: the digits
  before the first '.', and the fractional digits scaled to the column's
  precision. Missing places are padded with zeros; when there are more
  places than the precision, the first surplus digit rounds the last kept
  place up (at 5 or more) and everything after it is ignored. The rounding
  never carries into the integer part. Characters are not validated: every
  character but '.' contributes its code minus the code of '0', and all
  arithmetic wraps modulo 2^64 as `uint64_t` does.

  `DecimalOf` says what the pair is; the method `ParseDecimal` is the
  source's loop, proved to compute it. The lemmas give the pair's meaning
  on well-formed decimal texts.
*/
module FixedPointDecimal {
  import opened Numbers

  /** The source's `pair<uint64_t, uint64_t>`: integer part and scaled fraction. */
  datatype Decimal = Decimal(first: int, second: int)

  /** The index of the first '.' at or after `from`, or the end of the text. */
  function DotIndex(s: string, from: nat): (j: nat)
    requires from <= |s|
    ensures from <= j <= |s|
    ensures j < |s| ==> s[j] == '.'
    decreases |s| - from
  {
    if from == |s| || s[from] == '.' then from else DotIndex(s, from + 1)
  }

  /** No '.' comes before the one `DotIndex` finds. */
  lemma {:induction false} DotIndexFirst(s: string, from: nat, i: nat)
    requires from <= i < |s| && s[i] == '.'
    ensures DotIndex(s, from) <= i
    decreases |s| - from
  {
    if s[from] != '.' {
      DotIndexFirst(s, from + 1, i);
    }
  }

  /** The characters of `t` other than '.', in order. */
  function NonDots(t: string): (r: string)
    ensures |r| <= |t|
    decreases |t|
  {
    if t == [] then [] else NonDots(t[..|t| - 1]) + (if t[|t| - 1] == '.' then [] else [t[|t| - 1]])
  }

  /** The text before the first '.'. */
  function IntegerText(s: string): string
  {
    s[..DotIndex(s, 0)]
  }

  /** Every character after the first '.' that is not itself a '.'. */
  function FractionText(s: string): string
  {
    NonDots(s[DotIndex(s, 0)..])
  }

  /**
    The fraction's digits `f` brought to `precision` places before the
    wrap-around: the first `precision` digits plus one when the next digit is
    5 or more, or all digits padded with zeros. A negative precision keeps
    every digit and pads nothing.
  */
  function Scaled(f: string, precision: int): int
  {
    if 0 <= precision < |f| then Horner(f[..precision]) + (if DigitValue(f[precision]) > 4 then 1 else 0)
    else Horner(f) * Pow10(if precision > |f| then precision - |f| else 0)
  }

  function DecimalOf(s: string, precision: int): (d: Decimal)
    ensures 0 <= d.first < Uint64Modulus && 0 <= d.second < Uint64Modulus
  {
    Decimal(Wrap(Horner(IntegerText(s))), Wrap(Scaled(FractionText(s), precision)))
  }

  lemma NonDotsSnoc(t: string, c: char)
    ensures NonDots(t + [c]) == NonDots(t) + (if c == '.' then [] else [c])
  {
    assert (t + [c])[..|t|] == t;
  }

  lemma {:induction false} NonDotsAppend(a: string, b: string)
    ensures NonDots(a + b) == NonDots(a) + NonDots(b)
    decreases |b|
  {
    if b == [] {
      assert a + b == a;
    } else {
      var b' := b[..|b| - 1];
      var c := b[|b| - 1];
      assert b == b' + [c];
      assert a + b == (a + b') + [c];
      NonDotsSnoc(a + b', c);
      NonDotsSnoc(b', c);
      NonDotsAppend(a, b');
    }
  }

  /** The fraction read so far, one character further. */
  lemma FractionSoFarStep(s: string, d: nat, i: nat)
    requires d <= i < |s|
    ensures NonDots(s[d..i + 1]) == NonDots(s[d..i]) + (if s[i] == '.' then [] else [s[i]])
  {
    assert s[d..i + 1] == s[d..i] + [s[i]];
    NonDotsSnoc(s[d..i], s[i]);
  }

  /** When the fraction read so far has `g` digits, the next non-dot character is digit number |g| of the whole fraction. */
  lemma FractionAt(s: string, i: nat)
    requires DotIndex(s, 0) <= i < |s| && s[i] != '.'
    ensures var g := NonDots(s[DotIndex(s, 0)..i]); var f := FractionText(s);
      |f| > |g| && f[..|g|] == g && f[|g|] == s[i]
  {
    var d := DotIndex(s, 0);
    assert s[d..] == s[d..i] + ([s[i]] + s[i + 1..]);
    NonDotsAppend(s[d..i], [s[i]] + s[i + 1..]);
    NonDotsAppend([s[i]], s[i + 1..]);
    assert NonDots([s[i]]) == [s[i]] by { NonDotsSnoc([], s[i]); }
  }

  /** One integer digit more, with the wrap-around after every step. */
  lemma IntegerDigit(s: string, i: nat, v: int)
    requires i < |s| && v == Wrap(Horner(s[..i]))
    ensures Wrap(v * 10 + DigitValue(s[i])) == Wrap(Horner(s[..i + 1]))
  {
    assert s[..i + 1] == s[..i] + [s[i]];
    HornerSnoc(s[..i], s[i]);
    WrapStep(Horner(s[..i]), DigitValue(s[i]));
  }

  /** One fractional digit more, with the wrap-around after every step. */
  lemma FractionDigit(s: string, d: nat, i: nat, v: int)
    requires d <= i < |s| && s[i] != '.'
    requires v == Wrap(Horner(NonDots(s[d..i])))
    ensures |NonDots(s[d..i + 1])| == |NonDots(s[d..i])| + 1
    ensures Wrap(v * 10 + DigitValue(s[i])) == Wrap(Horner(NonDots(s[d..i + 1])))
  {
    FractionSoFarStep(s, d, i);
    HornerSnoc(NonDots(s[d..i]), s[i]);
    WrapStep(Horner(NonDots(s[d..i])), DigitValue(s[i]));
  }

  /** A '.' inside the fraction adds no digit. */
  lemma FractionDot(s: string, d: nat, i: nat)
    requires d <= i < |s| && s[i] == '.'
    ensures NonDots(s[d..i + 1]) == NonDots(s[d..i])
    ensures d == i ==> NonDots(s[d..i + 1]) == []
  {
    FractionSoFarStep(s, d, i);
  }

  /** The digit after the first `precision` fractional digits only rounds, and ends the fraction. */
  lemma RoundingDigit(s: string, i: nat, precision: int, v: int)
    requires DotIndex(s, 0) <= i < |s| && s[i] != '.'
    requires |NonDots(s[DotIndex(s, 0)..i])| == precision
    requires v == Wrap(Horner(NonDots(s[DotIndex(s, 0)..i])))
    ensures (if DigitValue(s[i]) > 4 then Wrap(v + 1) else v) == DecimalOf(s, precision).second
  {
    var g := NonDots(s[DotIndex(s, 0)..i]);
    var f := FractionText(s);
    FractionAt(s, i);
    assert f[..precision] == g && f[precision] == s[i];
    assert Scaled(f, precision) == Horner(g) + (if DigitValue(s[i]) > 4 then 1 else 0);
    WrapAdd(Horner(g), 1);
    assert DecimalOf(s, precision).second == Wrap(Scaled(f, precision));
  }

  /** After the last character, the fraction read so far is the whole fraction. */
  lemma WholeFraction(s: string, i: nat)
    requires i == |s|
    ensures NonDots(s[DotIndex(s, 0)..i]) == FractionText(s)
    ensures DotIndex(s, 0) == |s| ==> FractionText(s) == []
  {
    assert s[DotIndex(s, 0)..i] == s[DotIndex(s, 0)..];
  }

  /** One more padding zero. */
  lemma PadStep(x: int, n: nat, v: int)
    requires v == Wrap(x * Pow10(n))
    ensures Wrap(v * 10) == Wrap(x * Pow10(n + 1))
  {
    ShiftOnce(x, n);
    WrapTimesTen(x * Pow10(n), v);
  }

  lemma ShiftOnce(x: int, n: nat)
    ensures x * Pow10(n + 1) == x * Pow10(n) * 10
  {
    assert Pow10(n + 1) == 10 * Pow10(n);
  }

  lemma WrapTimesTen(y: int, v: int)
    requires v == Wrap(y)
    ensures Wrap(v * 10) == Wrap(y * 10)
  {
    WrapStep(y, 0);
    assert y * 10 + 0 == y * 10 && v * 10 + 0 == v * 10;
  }

  // ---------------------------------------------------------------------------
  // The loop of parseDecimal, one character at a time
  // ---------------------------------------------------------------------------

  /**
    The variables of the source's loop: the pair built so far, whether a '.'
    was seen, the number of fractional digits read, and whether the rounding
    digit was reached (the loop's `break`).
  */
  datatype Progress = Progress(decimal: Decimal, fraction: bool, decimalPlaces: int, done: bool)

  /** One pass of the loop body on character `c`. */
  function ScanStep(g: Progress, c: char, precision: int): Progress
  {
    if g.done then g
    else if c == '.' then g.(fraction := true)
    else if g.fraction then
      var places := g.decimalPlaces + 1;
      if places == precision + 1 then
        var second := if DigitValue(c) > 4 then Wrap(g.decimal.second + 1) else g.decimal.second;
        g.(decimal := g.decimal.(second := second), decimalPlaces := places, done := true)
      else
        g.(decimal := g.decimal.(second := Wrap(g.decimal.second * 10 + DigitValue(c))), decimalPlaces := places)
    else
      g.(decimal := g.decimal.(first := Wrap(g.decimal.first * 10 + DigitValue(c))))
  }

  /** The loop's variables after the first `i` characters. */
  function Scan(s: string, precision: int, i: nat): Progress
    requires i <= |s|
  {
    if i == 0 then Progress(Decimal(0, 0), false, 0, false)
    else ScanStep(Scan(s, precision, i - 1), s[i - 1], precision)
  }

  /**
    What the loop's variables mean after `i` characters, `d` being the first
    '.' and `rounded` the pair the loop ends with once it reaches the
    rounding digit.
  */
  ghost predicate ScanMeaning(s: string, precision: int, d: nat, i: nat, g: Progress, rounded: Decimal)
    requires d <= |s| && i <= |s|
  {
    && (g.done ==> g.decimal == rounded && g.decimalPlaces == precision + 1)
    && (!g.done ==> (g.fraction <==> d < i))
    && (!g.done && !g.fraction ==> g.decimal == Decimal(Wrap(Horner(s[..i])), 0) && g.decimalPlaces == 0)
    && (!g.done && g.fraction ==>
          && d < i
          && g.decimal.first == Wrap(Horner(s[..d]))
          && g.decimalPlaces == |NonDots(s[d..i])|
          && g.decimal.second == Wrap(Horner(NonDots(s[d..i])))
          && (precision >= 0 ==> g.decimalPlaces <= precision))
  }

  lemma ScanDot(s: string, precision: int, i: nat, g: Progress, rounded: Decimal)
    requires i < |s| && s[i] == '.' && !g.done
    requires ScanMeaning(s, precision, DotIndex(s, 0), i, g, rounded)
    ensures ScanMeaning(s, precision, DotIndex(s, 0), i + 1, ScanStep(g, s[i], precision), rounded)
  {
    var d := DotIndex(s, 0);
    DotIndexFirst(s, 0, i);
    FractionDot(s, d, i);
  }

  lemma ScanFractionDigit(s: string, precision: int, i: nat, g: Progress, rounded: Decimal)
    requires i < |s| && s[i] != '.' && !g.done && g.fraction
    requires g.decimalPlaces + 1 != precision + 1
    requires ScanMeaning(s, precision, DotIndex(s, 0), i, g, rounded)
    ensures ScanMeaning(s, precision, DotIndex(s, 0), i + 1, ScanStep(g, s[i], precision), rounded)
  {
    var d := DotIndex(s, 0);
    var second := Wrap(g.decimal.second * 10 + DigitValue(s[i]));
    var next := Progress(Decimal(g.decimal.first, second), true, g.decimalPlaces + 1, false);
    assert ScanStep(g, s[i], precision) == next;
    FractionDigit(s, d, i, g.decimal.second);
    assert next.decimal.second == Wrap(Horner(NonDots(s[d..i + 1])));
  }

  lemma ScanRounding(s: string, precision: int, i: nat, g: Progress, rounded: Decimal)
    requires i < |s| && s[i] != '.' && !g.done && g.fraction
    requires g.decimalPlaces + 1 == precision + 1 && rounded == DecimalOf(s, precision)
    requires ScanMeaning(s, precision, DotIndex(s, 0), i, g, rounded)
    ensures ScanMeaning(s, precision, DotIndex(s, 0), i + 1, ScanStep(g, s[i], precision), rounded)
  {
    RoundingDigit(s, i, precision, g.decimal.second);
  }

  lemma ScanIntegerDigit(s: string, precision: int, i: nat, g: Progress, rounded: Decimal)
    requires i < |s| && s[i] != '.' && !g.done && !g.fraction
    requires ScanMeaning(s, precision, DotIndex(s, 0), i, g, rounded)
    ensures ScanMeaning(s, precision, DotIndex(s, 0), i + 1, ScanStep(g, s[i], precision), rounded)
  {
    IntegerDigit(s, i, g.decimal.first);
  }

  /** Every prefix the loop reads leaves its variables with their meaning. */
  /** One pass of the loop body keeps the meaning of the loop's variables. */
  lemma ScanStepMeans(s: string, precision: int, i: nat, g: Progress, rounded: Decimal)
    requires i < |s| && rounded == DecimalOf(s, precision)
    requires ScanMeaning(s, precision, DotIndex(s, 0), i, g, rounded)
    ensures ScanMeaning(s, precision, DotIndex(s, 0), i + 1, ScanStep(g, s[i], precision), rounded)
  {
    if !g.done {
      if s[i] == '.' {
        ScanDot(s, precision, i, g, rounded);
      } else if g.fraction && g.decimalPlaces == precision {
        ScanRounding(s, precision, i, g, rounded);
      } else if g.fraction {
        ScanFractionDigit(s, precision, i, g, rounded);
      } else {
        ScanIntegerDigit(s, precision, i, g, rounded);
      }
    }
  }

  lemma {:induction false} ScanMeans(s: string, precision: int, i: nat)
    requires i <= |s|
    ensures ScanMeaning(s, precision, DotIndex(s, 0), i, Scan(s, precision, i), DecimalOf(s, precision))
  {
    if i > 0 {
      ScanMeans(s, precision, i - 1);
      ScanStepMeans(s, precision, i - 1, Scan(s, precision, i - 1), DecimalOf(s, precision));
    }
  }

  /** After the `break`, the remaining characters change nothing. */
  lemma {:induction false} ScanStaysDone(s: string, precision: int, i: nat, j: nat)
    requires i <= j <= |s| && Scan(s, precision, i).done
    ensures Scan(s, precision, j) == Scan(s, precision, i)
    decreases j - i
  {
    if i < j {
      ScanStaysDone(s, precision, i, j - 1);
    }
  }

  /** The loop's variables at its end, in terms of the decimal text. */
  lemma ScanEnd(s: string, precision: int)
    ensures var g := Scan(s, precision, |s|); var f := FractionText(s);
      && (g.done ==> g.decimal == DecimalOf(s, precision) && g.decimalPlaces == precision + 1)
      && (!g.done ==>
            && g.decimal.first == DecimalOf(s, precision).first
            && g.decimalPlaces == |f|
            && g.decimal.second == Wrap(Horner(f))
            && (precision >= 0 ==> |f| <= precision))
  {
    ScanMeans(s, precision, |s|);
    WholeFraction(s, |s|);
    assert s[..|s|] == s;
  }

  /**
    The source's loop. `fraction` records that a '.' was seen; the first
    `precision` fractional digits are accumulated and the next one only
    rounds. The integer digits are counted in `length` for a check on
    `maxLength` that the source disables.
  */
  method ParseDecimal(decimalString: string, maxLength: int, precision: int) returns (decimal: Decimal)
    ensures decimal == DecimalOf(decimalString, precision)
  {
    var s := decimalString;
    decimal := Decimal(0, 0);
    var fraction := false;
    var length := 0;
    var decimalPlaces := 0;
    ghost var rounded := false;
    for i := 0 to |s|
      invariant Progress(decimal, fraction, decimalPlaces, false) == Scan(s, precision, i)
    {
      var digit := s[i];
      if digit == '.' {
        fraction := true;
        continue;
      }
      if fraction {
        decimalPlaces := decimalPlaces + 1;
        var decimalPlace := DigitValue(digit);
        if decimalPlaces == precision + 1 {
          if decimalPlace > 4 {
            decimal := decimal.(second := Wrap(decimal.second + 1));
          }
          rounded := true;
          ScanStaysDone(s, precision, i + 1, |s|);
          break;
        }
        decimal := decimal.(second := Wrap(decimal.second * 10 + DigitValue(digit)));
      } else {
        length := length + 1;
        decimal := decimal.(first := Wrap(decimal.first * 10 + DigitValue(digit)));
      }
    }
    assert Progress(decimal, fraction, decimalPlaces, rounded) == Scan(s, precision, |s|);
    ScanEnd(s, precision);
    ghost var f := FractionText(s);
    // Pad the fraction with zeros up to the precision.
    while decimalPlaces < precision
      invariant rounded ==> decimal == DecimalOf(s, precision) && decimalPlaces == precision + 1
      invariant !rounded ==> decimal.first == DecimalOf(s, precision).first
      invariant !rounded ==> |f| <= decimalPlaces && (decimalPlaces <= precision || decimalPlaces == |f|)
      invariant !rounded ==> decimal.second == Wrap(Horner(f) * Pow10(decimalPlaces - |f|))
      decreases precision - decimalPlaces
    {
      PadStep(Horner(f), decimalPlaces - |f|, decimal.second);
      decimal := decimal.(second := Wrap(decimal.second * 10));
      decimalPlaces := decimalPlaces + 1;
    }
  }
}

/**
  What a decimal column's pair means on decimal texts: the number scaled to
  the precision, split at the decimal point.
*/
module DecimalMeaning {
  import opened Numbers
  import opened FixedPointDecimal

  /** The text of a decimal number: integer digits, a point, fractional digits. */
  function DecimalText(integer: string, fraction: string): string
  {
    integer + "." + fraction
  }

  /** The first '.' at or after `from` of a concatenation: in the first part if it has one, else in the second. */
  lemma {:induction false} DotIndexAppend(s: string, t: string, from: nat)
    requires from <= |s|
    ensures DotIndex(s + t, from) == if DotIndex(s, from) < |s| then DotIndex(s, from) else |s| + DotIndex(t, 0)
    decreases |s| - from
  {
    if from < |s| {
      assert (s + t)[from] == s[from];
      if s[from] != '.' {
        DotIndexAppend(s, t, from + 1);
      }
    } else {
      DotIndexShift(s, t, 0);
    }
  }

  lemma {:induction false} DotIndexShift(s: string, t: string, k: nat)
    requires k <= |t|
    ensures DotIndex(s + t, |s| + k) == |s| + DotIndex(t, k)
    decreases |t| - k
  {
    if k < |t| {
      assert (s + t)[|s| + k] == t[k];
      if t[k] != '.' {
        DotIndexShift(s, t, k + 1);
      }
    }
  }

  lemma {:induction false} NoDotBeforeDigits(s: string, from: nat)
    requires from <= |s| && AllDigits(s)
    ensures DotIndex(s, from) == |s|
    decreases |s| - from
  {
    if from < |s| {
      NoDotBeforeDigits(s, from + 1);
    }
  }

  lemma {:induction false} NonDotsOfDigits(t: string)
    requires AllDigits(t)
    ensures NonDots(t) == t
    decreases |t|
  {
    if t != [] {
      NonDotsOfDigits(t[..|t| - 1]);
    }
  }

  /** The fraction of a text with a '.' grows by the non-dot characters appended to it. */
  lemma FractionTextAppend(s: string, rest: string)
    requires DotIndex(s, 0) < |s|
    ensures DotIndex(s + rest, 0) == DotIndex(s, 0)
    ensures IntegerText(s + rest) == IntegerText(s)
    ensures FractionText(s + rest) == FractionText(s) + NonDots(rest)
  {
    var d := DotIndex(s, 0);
    DotIndexAppend(s, rest, 0);
    assert (s + rest)[..d] == s[..d];
    assert (s + rest)[d..] == s[d..] + rest;
    NonDotsAppend(s[d..], rest);
  }

  /** The two parts of a decimal text come back as its integer text and fraction text. */
  lemma TextParts(integer: string, fraction: string)
    requires AllDigits(integer) && AllDigits(fraction)
    ensures IntegerText(DecimalText(integer, fraction)) == integer
    ensures FractionText(DecimalText(integer, fraction)) == fraction
  {
    var s := DecimalText(integer, fraction);
    NoDotBeforeDigits(integer, 0);
    DotIndexAppend(integer, "." + fraction, 0);
    assert s == integer + ("." + fraction);
    assert s[..|integer|] == integer;
    assert s[|integer|..] == "." + fraction;
    NonDotsAppend(".", fraction);
    NonDotsSnoc([], '.');
    assert [] + "." == ".";
    NonDotsOfDigits(fraction);
  }

  /**
    With no more fractional digits than the precision, and values that fit in
    64 bits, the pair is the number times 10^precision, split at the point:
    the integer part, and the fraction scaled to `precision` places.
  */
  lemma ExactDecimal(integer: string, fraction: string, precision: int)
    requires AllDigits(integer) && AllDigits(fraction)
    requires |fraction| <= precision <= 19
    requires Horner(integer) < Uint64Modulus
    ensures var r := DecimalOf(DecimalText(integer, fraction), precision);
      && r.first == Horner(integer)
      && 0 <= r.second < Pow10(precision)
      && r.first * Pow10(precision) + r.second == Horner(integer + fraction) * Pow10(precision - |fraction|)
  {
    ScaledExact(fraction, precision);
    Unwrapped(integer, fraction, precision);
    HornerConcat(integer, fraction);
    Pow10Add(|fraction|, precision - |fraction|);
    ScaleSplit(Horner(integer), Horner(fraction), Pow10(|fraction|), Pow10(precision - |fraction|), Horner(integer + fraction));
  }

  /** Integer parts and scaled fractions that fit in 64 bits are not wrapped. */
  lemma Unwrapped(integer: string, fraction: string, precision: int)
    requires AllDigits(integer) && AllDigits(fraction)
    requires 0 <= precision <= 19
    requires Horner(integer) < Uint64Modulus
    requires 0 <= Scaled(fraction, precision) <= Pow10(precision)
    ensures DecimalOf(DecimalText(integer, fraction), precision) == Decimal(Horner(integer), Scaled(fraction, precision))
  {
    TextParts(integer, fraction);
    HornerBound(integer);
    Pow10Fits(precision);
    WrapSmall(Horner(integer));
    WrapSmall(Scaled(fraction, precision));
  }

  /** Up to `precision` digits are scaled exactly, below 10^precision. */
  lemma ScaledExact(f: string, precision: int)
    requires AllDigits(f) && |f| <= precision
    ensures Scaled(f, precision) == Horner(f) * Pow10(precision - |f|)
    ensures 0 <= Scaled(f, precision) < Pow10(precision)
  {
    HornerBound(f);
    Pow10Add(|f|, precision - |f|);
    ProductBelow(Horner(f), Pow10(|f|), Pow10(precision - |f|));
  }

  lemma ProductBelow(h: int, p: int, q: nat)
    requires 0 <= h < p && q >= 1
    ensures 0 <= h * q < p * q
  {
    MulMonotone(h + 1, p, q);
    MulMonotone(0, h, q);
  }

  /** More than `precision` digits are cut to `precision` and rounded half up, to at most 10^precision. */
  lemma ScaledRounded(f: string, precision: int)
    requires AllDigits(f) && 0 <= precision < |f|
    ensures Scaled(f, precision) == Horner(f[..precision]) + (if f[precision] >= '5' then 1 else 0)
    ensures 0 <= Scaled(f, precision) <= Pow10(precision)
  {
    assert AllDigits(f[..precision]);
    HornerBound(f[..precision]);
  }

  /** A zero appended within the precision is scaled away. */
  lemma ScaledZero(f: string, precision: int)
    requires |f| <= precision
    ensures Scaled(f + "0", precision) == Scaled(f, precision)
  {
    var g := f + "0";
    assert g[..|f|] == f;
    HornerSnoc(f, '0');
    var h := Horner(f);
    if |f| < precision {
      var k := precision - |g|;
      assert Scaled(g, precision) == (h * 10) * Pow10(k);
      assert Scaled(f, precision) == h * (10 * Pow10(k));
    } else {
      assert Scaled(f, precision) == h * 1;
    }
  }

  /** Scaling a number split as a * p + h by q scales both parts. */
  lemma ScaleSplit(a: int, h: int, p: int, q: int, whole: int)
    requires whole == a * p + h
    ensures a * (p * q) + h * q == whole * q
  {
  }

  /**
    Two decimal texts that read exactly give the same pair if and only if
    they denote the same number.
  */
  lemma EqualIffSameNumber(i1: string, f1: string, i2: string, f2: string, precision: int)
    requires AllDigits(i1) && AllDigits(f1) && AllDigits(i2) && AllDigits(f2)
    requires |f1| <= precision <= 19 && |f2| <= precision
    requires Horner(i1) < Uint64Modulus && Horner(i2) < Uint64Modulus
    ensures DecimalOf(DecimalText(i1, f1), precision) == DecimalOf(DecimalText(i2, f2), precision)
        <==> Horner(i1 + f1) * Pow10(precision - |f1|) == Horner(i2 + f2) * Pow10(precision - |f2|)
  {
    ExactDecimal(i1, f1, precision);
    ExactDecimal(i2, f2, precision);
    var r1 := DecimalOf(DecimalText(i1, f1), precision);
    var r2 := DecimalOf(DecimalText(i2, f2), precision);
    if r1.first * Pow10(precision) + r1.second == r2.first * Pow10(precision) + r2.second {
      SplitUnique(r1.first, r1.second, r2.first, r2.second, Pow10(precision));
    }
  }

  /**
    With more fractional digits than the precision, the first surplus digit
    rounds the last kept place half up, within the fraction.
  */
  lemma RoundedDecimal(integer: string, fraction: string, precision: int)
    requires AllDigits(integer) && AllDigits(fraction)
    requires 0 <= precision < |fraction| && precision <= 19
    requires Horner(integer) < Uint64Modulus
    ensures var r := DecimalOf(DecimalText(integer, fraction), precision);
      && r.first == Horner(integer)
      && r.second == Horner(fraction[..precision]) + (if fraction[precision] >= '5' then 1 else 0)
      && r.second <= Pow10(precision)
  {
    ScaledRounded(fraction, precision);
    Unwrapped(integer, fraction, precision);
  }

  lemma {:induction false} NinesValue(t: string)
    requires forall k :: 0 <= k < |t| ==> t[k] == '9'
    ensures Horner(t) + 1 == Pow10(|t|)
    decreases |t|
  {
    if t != [] {
      NinesValue(t[..|t| - 1]);
    }
  }

  /**
    The rounding never carries into the integer part: kept places that are
    all nines, rounded up, leave a fraction equal to 10^precision (so
    "1.995" at precision 2 reads as 1 and 100, not as 2 and 0).
  */
  lemma RoundingDoesNotCarry(integer: string, fraction: string, precision: int)
    requires AllDigits(integer) && AllDigits(fraction)
    requires 0 <= precision < |fraction| && precision <= 19
    requires Horner(integer) < Uint64Modulus
    requires forall k :: 0 <= k < precision ==> fraction[k] == '9'
    requires fraction[precision] >= '5'
    ensures DecimalOf(DecimalText(integer, fraction), precision) == Decimal(Horner(integer), Pow10(precision))
  {
    RoundedDecimal(integer, fraction, precision);
    NinesValue(fraction[..precision]);
  }

  /** Whatever follows the rounding digit is never read. */
  lemma LaterDigitsIgnored(s: string, rest: string, precision: int)
    requires DotIndex(s, 0) < |s|
    requires 0 <= precision < |FractionText(s)|
    ensures DecimalOf(s + rest, precision) == DecimalOf(s, precision)
  {
    FractionTextAppend(s, rest);
    var f := FractionText(s);
    assert (f + NonDots(rest))[..precision] == f[..precision];
    assert (f + NonDots(rest))[precision] == f[precision];
  }

  /** A trailing zero within the precision does not change the pair. */
  lemma TrailingZero(s: string, precision: int)
    requires DotIndex(s, 0) < |s|
    requires |FractionText(s)| <= precision
    ensures DecimalOf(s + "0", precision) == DecimalOf(s, precision)
  {
    FractionTextAppend(s, "0");
    NonDotsSnoc([], '0');
    assert [] + "0" == "0";
    ScaledZero(FractionText(s), precision);
  }

  /** A '.' with no digits after it reads as no fraction at all. */
  lemma PointWithoutFraction(s: string, precision: int)
    requires DotIndex(s, 0) == |s|
    ensures DecimalOf(s + ".", precision) == DecimalOf(s, precision)
  {
    DotIndexAppend(s, ".", 0);
    assert (s + ".")[..|s|] == s[..|s|];
    assert (s + ".")[|s|..] == ".";
    NonDotsSnoc([], '.');
    assert [] + "." == ".";
    assert s[|s|..] == [];
  }
}
