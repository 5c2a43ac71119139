/**
  Integer helpers shared by the schema parser and the comparison engine:
  the value of a character as a decimal digit (the source's `c - '0'`),
  left-to-right base-10 accumulation, powers of ten, the unsigned 64-bit
  modulus of `uint64_t`, and a model of the C++ library's `std::stoi` and
  `std::stol` (leading white space, an optional sign, the longest run of
  decimal digits, and the two exceptions they raise).
*/
module Numbers {

  /** The number of values of `uint64_t`; arithmetic on it wraps modulo this. */
  const Uint64Modulus: int := 0x1_0000_0000_0000_0000

  /** The range of a 32-bit `int` (the result type of `std::stoi`). */
  const IntMin: int := -0x8000_0000
  const IntMax: int := 0x7fff_ffff

  /** The range of a 64-bit `long` (the result type of `std::stol`). */
  const LongMin: int := -0x8000_0000_0000_0000
  const LongMax: int := 0x7fff_ffff_ffff_ffff

  predicate IsDigit(c: char) { '0' <= c <= '9' }

  predicate AllDigits(s: string) { forall i :: 0 <= i < |s| ==> IsDigit(s[i]) }

  /** The C++ expression `c - '0'`: the digit's value for a digit, some other integer otherwise. */
  function DigitValue(c: char): (d: int)
    ensures IsDigit(c) ==> 0 <= d <= 9
  {
    c as int - '0' as int
  }

  /** `x = x*10 + c - '0'` applied to every character of `s`, left to right, without wrap-around. */
  function Horner(s: string): int
    decreases |s|
  {
    if s == [] then 0 else Horner(s[..|s| - 1]) * 10 + DigitValue(s[|s| - 1])
  }

  function Pow10(n: nat): (p: nat)
    ensures p >= 1
  {
    if n == 0 then 1 else 10 * Pow10(n - 1)
  }

  lemma {:induction false} Pow10Add(m: nat, n: nat)
    ensures Pow10(m + n) == Pow10(m) * Pow10(n)
    decreases n
  {
    if n > 0 {
      Pow10Add(m, n - 1);
    }
  }

  /** Multiplying by a non-negative number keeps an order. */
  lemma {:induction false} MulMonotone(a: int, b: int, c: nat)
    requires a <= b
    ensures a * c <= b * c
    decreases c
  {
    if c > 0 {
      MulMonotone(a, b, c - 1);
      assert a * c == a * (c - 1) + a;
      assert b * c == b * (c - 1) + b;
    }
  }

  lemma Pow10Of19()
    ensures Pow10(19) == 10_000_000_000_000_000_000
  {
    var p4 := Pow10(4);
    assert p4 == 10_000;
    Pow10Add(4, 4);
    var p8 := Pow10(8);
    assert p8 == 100_000_000;
    Pow10Add(8, 8);
    var p16 := Pow10(16);
    assert p16 == p8 * p8;
    Pow10Add(16, 3);
    assert Pow10(3) == 1000;
  }

  /** 10^19 is the largest power of ten below 2^64. */
  lemma Pow10Fits(n: nat)
    requires n <= 19
    ensures Pow10(n) <= Pow10(19) < Uint64Modulus
  {
    Pow10Add(19 - n, n);
    MulMonotone(1, Pow10(19 - n), Pow10(n));
    Pow10Of19();
  }

  /** A number below `unit` and the multiple of `unit` it is added to can be told apart. */
  lemma SplitUnique(q1: int, r1: int, q2: int, r2: int, unit: int)
    requires unit > 0 && 0 <= r1 < unit && 0 <= r2 < unit
    requires q1 * unit + r1 == q2 * unit + r2
    ensures q1 == q2 && r1 == r2
  {
    if q1 < q2 {
      MulMonotone(q1 + 1, q2, unit);
    } else if q2 < q1 {
      MulMonotone(q2 + 1, q1, unit);
    }
  }

  lemma HornerSnoc(s: string, c: char)
    ensures Horner(s + [c]) == Horner(s) * 10 + DigitValue(c)
  {
    assert (s + [c])[..|s|] == s;
  }

  /** A string of n digits denotes a value below 10^n. */
  lemma {:induction false} HornerBound(s: string)
    requires AllDigits(s)
    ensures 0 <= Horner(s) < Pow10(|s|)
  {
    if s != [] {
      HornerBound(s[..|s| - 1]);
    }
  }

  lemma ShiftOnce(x: int, p: int, y: int, d: int, q: int)
    requires q == 10 * p
    ensures (x * p + y) * 10 + d == x * q + (y * 10 + d)
  {
  }

  /** Accumulating digits of a + b is accumulating a, shifting it by |b| places, and adding b. */
  lemma {:induction false} HornerConcat(a: string, b: string)
    ensures Horner(a + b) == Horner(a) * Pow10(|b|) + Horner(b)
  {
    if b == [] {
      assert a + b == a;
    } else {
      var b' := b[..|b| - 1];
      var c := b[|b| - 1];
      assert b == b' + [c];
      assert a + b == (a + b') + [c];
      HornerSnoc(a + b', c);
      HornerSnoc(b', c);
      HornerConcat(a, b');
      var x, p, y, d := Horner(a), Pow10(|b'|), Horner(b'), DigitValue(c);
      ShiftOnce(x, p, y, d, Pow10(|b|));
    }
  }

  /**
    `uint64_t` arithmetic: the value brought into [0, 2^64) by whole
    multiples of 2^64. It is `x % Uint64Modulus` (WrapIsMod); it is written as
    a reduction so that proofs about the wrap-around go through the lemmas
    below rather than through modular arithmetic on 2^64.
  */
  function Wrap(x: int): (r: int)
    ensures 0 <= r < Uint64Modulus
    decreases if x < 0 then Uint64Modulus - x else x
  {
    if x < 0 then Wrap(x + Uint64Modulus)
    else if x < Uint64Modulus then x
    else Wrap(x - Uint64Modulus)
  }

  lemma {:induction false} WrapIsMod(x: int)
    ensures Wrap(x) == x % Uint64Modulus
    decreases if x < 0 then Uint64Modulus - x else x
  {
    if x < 0 {
      WrapIsMod(x + Uint64Modulus);
      ModShift(x, 1);
    } else if x >= Uint64Modulus {
      WrapIsMod(x - Uint64Modulus);
      ModShift(x - Uint64Modulus, 1);
    }
  }

  /** A value already in range is unchanged by the wrap-around. */
  lemma WrapSmall(x: int)
    requires 0 <= x < Uint64Modulus
    ensures Wrap(x) == x
  {
  }

  /** Wrapping after every step of the accumulation is the same as wrapping once at the end. */
  lemma WrapStep(a: int, d: int)
    ensures Wrap(Wrap(a) * 10 + d) == Wrap(a * 10 + d)
  {
    var m := Uint64Modulus;
    WrapIsMod(a);
    WrapIsMod(Wrap(a) * 10 + d);
    WrapIsMod(a * 10 + d);
    var q := a / m;
    assert a == q * m + a % m;
    assert a * 10 + d == (a % m * 10 + d) + (q * 10) * m;
    ModShift(a % m * 10 + d, q * 10);
  }

  /** Adding to a wrapped value and wrapping again is adding and wrapping once. */
  lemma WrapAdd(a: int, b: int)
    ensures Wrap(Wrap(a) + b) == Wrap(a + b)
  {
    var m := Uint64Modulus;
    WrapIsMod(a);
    WrapIsMod(Wrap(a) + b);
    WrapIsMod(a + b);
    var q := a / m;
    assert a + b == (a % m + b) + q * m;
    ModShift(a % m + b, q);
  }

  lemma ModShift(x: int, k: int)
    ensures (x + k * Uint64Modulus) % Uint64Modulus == x % Uint64Modulus
  {
    var m := Uint64Modulus;
    var y := x + k * m;
    assert y == (x / m + k) * m + x % m;
    assert 0 <= x % m < m;
  }

  // ---------------------------------------------------------------------------
  // std::stoi / std::stol
  // ---------------------------------------------------------------------------

  /** `isspace` in the C locale: space, tab, newline, vertical tab, form feed, carriage return. */
  predicate IsSpace(c: char) { c == ' ' || '\t' <= c <= '\r' }

  datatype IntParse = Parsed(value: int) | InvalidArgument | OutOfRange

  /** The index of the first non-digit at or after i. */
  function DigitsEnd(s: string, i: nat): (j: nat)
    requires i <= |s|
    ensures i <= j <= |s|
    ensures AllDigits(s[i..j])
    ensures j < |s| ==> !IsDigit(s[j])
    decreases |s| - i
  {
    if i < |s| && IsDigit(s[i]) then DigitsEnd(s, i + 1) else i
  }

  /** The index of the first non-white-space character at or after i. */
  function SpacesEnd(s: string, i: nat): (j: nat)
    requires i <= |s|
    ensures i <= j <= |s|
    ensures forall k :: i <= k < j ==> IsSpace(s[k])
    ensures j < |s| ==> !IsSpace(s[j])
    decreases |s| - i
  {
    if i < |s| && IsSpace(s[i]) then SpacesEnd(s, i + 1) else i
  }

  /**
    `std::stoi` (lo, hi = IntMin, IntMax) and `std::stol` (LongMin, LongMax):
    white space is skipped, one sign is read, then the longest run of digits;
    no digit gives `std::invalid_argument`, a value outside the result type
    gives `std::out_of_range`, and anything after the digits is ignored.
  */
  function ParseInteger(s: string, lo: int, hi: int): (r: IntParse)
    ensures r.Parsed? ==> lo <= r.value <= hi
  {
    var start := SpacesEnd(s, 0);
    var negative := start < |s| && s[start] == '-';
    var digitsStart := if start < |s| && (s[start] == '-' || s[start] == '+') then start + 1 else start;
    var digitsEnd := DigitsEnd(s, digitsStart);
    if digitsEnd == digitsStart then InvalidArgument
    else
      var magnitude := Horner(s[digitsStart..digitsEnd]);
      var v := if negative then -magnitude else magnitude;
      if lo <= v <= hi then Parsed(v) else OutOfRange
  }

  /**
    A non-empty run of digits followed by anything that does not start with a
    digit reads as the value of that run, or as out of range when it is too
    large: the source relies on this to read a length from "3)".
  */
  lemma ParseLeadingDigits(digits: string, rest: string, lo: int, hi: int)
    requires digits != [] && AllDigits(digits)
    requires rest == [] || !IsDigit(rest[0])
    requires lo <= 0
    ensures ParseInteger(digits + rest, lo, hi)
         == if Horner(digits) <= hi then Parsed(Horner(digits)) else OutOfRange
  {
    var s := digits + rest;
    assert s[0] == digits[0];
    assert SpacesEnd(s, 0) == 0;
    DigitsRun(s, 0, |digits|);
    assert s[0..|digits|] == digits;
    HornerBound(digits);
  }

  lemma {:induction false} DigitsRun(s: string, i: nat, j: nat)
    requires i <= j <= |s|
    requires AllDigits(s[i..j])
    requires j == |s| || !IsDigit(s[j])
    ensures DigitsEnd(s, i) == j
    decreases j - i
  {
    if i < j {
      assert s[i] == s[i..j][0];
      assert s[i + 1..j] == s[i..j][1..];
      DigitsRun(s, i + 1, j);
    }
  }

  /**
    A sign, then a run of digits ended by anything but a digit: the run's
    value, negated after a minus, if the result type holds it.
  */
  lemma SignedDigits(sign: char, digits: string, rest: string, lo: int, hi: int)
    requires sign == '-' || sign == '+'
    requires digits != [] && AllDigits(digits)
    requires rest == [] || !IsDigit(rest[0])
    ensures var v := if sign == '-' then -Horner(digits) else Horner(digits);
      ParseInteger([sign] + digits + rest, lo, hi) == if lo <= v <= hi then Parsed(v) else OutOfRange
  {
    var s := [sign] + digits + rest;
    var digitsEnd := 1 + |digits|;
    assert s[0] == sign;
    assert SpacesEnd(s, 0) == 0;
    assert s[1..digitsEnd] == digits;
    assert digitsEnd < |s| ==> s[digitsEnd] == rest[0];
    DigitsRun(s, 1, digitsEnd);
  }

  /** Text in which no digit follows the optional white space and sign is refused. */
  lemma ParseWithoutDigits(s: string, lo: int, hi: int)
    requires forall i :: 0 <= i < |s| ==> !IsDigit(s[i])
    ensures ParseInteger(s, lo, hi) == InvalidArgument
  {
  }
}

/** The result of an operation that can fail, as in the source's exceptions. */
module Results {
  datatype Result<+T, +E> = Ok(value: T) | Err(error: E)
}
