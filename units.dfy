/** Human-readable size formatting: format_size in du-lite.c.

    The program divides the byte count by 1024 while it is at least 1024,
    moving through the labels B, KB, MB, GB and TB and stopping at TB. The
    division is integer division, so the value handed to "%.1f" is always a
    whole number and the printed fraction is always ".0". */
module Units {

  /** The labels of units[] in format_size, indexed by unit_index. */
  const UnitLabels: seq<string> := ["B", "KB", "MB", "GB", "TB"]

  /** The index of the last label: the loop never moves past it. */
  const LastUnit: nat := |UnitLabels| - 1

  /** Size of the buffer format_size allocates; snprintf writes at most
      BufferSize - 1 characters and a terminating NUL. */
  const BufferSize: nat := 20

  /** Largest value of a C long long. */
  const LongLongMax: int := 0x7fff_ffff_ffff_ffff

  /** 1024 raised to the power k: the number of bytes in one unit k. */
  function Pow1024(k: nat): (p: nat)
    ensures p >= 1
  {
    if k == 0 then 1 else 1024 * Pow1024(k - 1)
  }

  /** The unit a size is shown in, defined by thresholds rather than by the
      loop: the largest k <= 4 with size >= 1024^k, or 0 for small sizes. */
  function UnitFor(size: int): nat
  {
    if size >= Pow1024(4) then 4
    else if size >= Pow1024(3) then 3
    else if size >= Pow1024(2) then 2
    else if size >= Pow1024(1) then 1
    else 0
  }

  /** The whole number shown for a size: the size divided by the bytes in
      its unit, truncated (for the non-negative sizes the program measures,
      Dafny's division agrees with C's). */
  function Scaled(size: int): int
  {
    size / Pow1024(UnitFor(size))
  }

  lemma PowSteps()
    ensures Pow1024(1) == 1024
    ensures Pow1024(2) == 1048576
    ensures Pow1024(3) == 1073741824
    ensures Pow1024(4) == 1099511627776
    ensures Pow1024(5) == 1125899906842624
  {
    assert Pow1024(0) == 1;
  }

  lemma {:induction false} PowMonotone(i: nat, j: nat)
    requires i <= j
    ensures Pow1024(i) <= Pow1024(j)
  {
    if i < j {
      PowMonotone(i, j - 1);
    }
  }

  lemma MulAtLeast(a: int, b: int)
    requires a >= 1 && b >= 0
    ensures a * b >= b
  {
    assert a * b == (a - 1) * b + b;
  }

  /** Division is determined by any quotient and remainder in range. */
  lemma DivUnique(s: int, m: nat, q: int, r: int)
    requires m >= 1 && s == q * m + r && 0 <= r < m
    ensures s / m == q
  {
    var q0, r0 := s / m, s % m;
    assert s == q0 * m + r0 && 0 <= r0 < m;
    var d := q0 - q;
    assert d * m == r - r0;
    if d >= 1 {
      MulAtLeast(d, m);
    } else if d <= -1 {
      MulAtLeast(-d, m);
    }
  }

  lemma Distribute(a: int, b: int, c: int)
    ensures (a + b) * c == a * c + b * c
  {
  }

  lemma Associate(a: int, b: int, c: int)
    ensures (a * b) * c == a * (b * c)
  {
  }

  lemma MulMonotone(a: int, b: int, c: int)
    requires a <= b && c >= 0
    ensures a * c <= b * c
  {
    if b > a {
      Distribute(b - a, a, c);
      MulAtLeast(b - a, c);
    }
  }

  /** Dividing in two steps is dividing once by the product. */
  lemma DivTwice(s: int, p: nat)
    requires p >= 1
    ensures s / p / 1024 == s / (1024 * p)
  {
    var q, r := s / p, s % p;
    var q2, r2 := q / 1024, q % 1024;
    assert s == q * p + r && 0 <= r < p;
    assert q == q2 * 1024 + r2 && 0 <= r2 < 1024;
    Distribute(q2 * 1024, r2, p);
    Associate(q2, 1024, p);
    assert s == q2 * (1024 * p) + (r2 * p + r);
    MulMonotone(r2, 1023, p);
    assert r2 * p + r < 1024 * p;
    DivUnique(s, 1024 * p, q2, r2 * p + r);
  }

  /** A quotient is below a bound exactly when the dividend is below the
      bound times the divisor. */
  lemma QuotientBelow(s: int, p: nat, b: int)
    requires p >= 1
    ensures s / p < b <==> s < b * p
  {
    var q := s / p;
    var r := s % p;
    assert s == q * p + r && 0 <= r < p;
    if q < b {
      assert q + 1 <= b;
      assert (q + 1) * p <= b * p;
    } else {
      assert q * p >= b * p;
    }
  }

  /** The scaling loop of format_size: divide by 1024 while the value is at
      least 1024 and a larger unit exists. It computes exactly the
      threshold-defined unit and the truncated quotient. */
  method ScaleSize(size: int) returns (value: int, unit: nat)
    ensures unit == UnitFor(size) && value == Scaled(size)
  {
    value, unit := size, 0;
    while value >= 1024 && unit < LastUnit
      invariant unit <= LastUnit
      invariant value == size / Pow1024(unit)
      invariant unit > 0 ==> size >= Pow1024(unit)
    {
      QuotientBelow(size, Pow1024(unit), 1024);
      DivTwice(size, Pow1024(unit));
      value := value / 1024;
      unit := unit + 1;
    }
    PowSteps();
    if unit < LastUnit {
      QuotientBelow(size, Pow1024(unit), 1024);
      assert size < Pow1024(unit + 1);
      PowMonotone(unit + 1, 4);
      if unit < 3 { PowMonotone(unit + 1, 3); }
      if unit < 2 { PowMonotone(unit + 1, 2); }
      if unit < 1 { PowMonotone(unit + 1, 1); }
    }
  }

  /** The decimal digits of a natural number, most significant first. */
  function Digits(n: nat): (s: string)
    ensures |s| >= 1
    decreases n
  {
    if n < 10 then [DigitChar(n)] else Digits(n / 10) + [DigitChar(n % 10)]
  }

  function DigitChar(d: nat): char
    requires d < 10
  {
    "0123456789"[d]
  }

  predicate IsDigit(c: char)
  {
    '0' <= c <= '9'
  }

  /** Reads a string of decimal digits back as a number: the inverse of Digits. */
  function DigitsValue(s: string): nat
    requires forall i :: 0 <= i < |s| ==> IsDigit(s[i])
  {
    if s == [] then 0
    else 10 * DigitsValue(s[..|s| - 1]) + DigitValue(s[|s| - 1])
  }

  function DigitValue(c: char): nat
    requires IsDigit(c)
  {
    c as int - '0' as int
  }

  /** How "%.1f" prints a whole number: its decimal digits, with a minus sign
      when negative, followed by the fraction ".0". */
  function WholeText(v: int): string
  {
    (if v < 0 then "-" + Digits(-v) else Digits(v)) + ".0"
  }

  /** The full "%.1f %s" text for a scaled value and a unit index. */
  function Render(value: int, unit: nat): string
    requires unit < |UnitLabels|
  {
    WholeText(value) + " " + UnitLabels[unit]
  }

  /** What snprintf leaves in the buffer: at most BufferSize - 1 characters. */
  function Clip(s: string): (r: string)
    ensures |r| < BufferSize && |r| <= |s|
    ensures r == s[..|r|]
    ensures |s| < BufferSize ==> r == s
    ensures |s| >= BufferSize ==> r == s[..BufferSize - 1]
  {
    if |s| < BufferSize then s else s[..BufferSize - 1]
  }

  /** The string format_size returns for a size. */
  function FormatText(size: int): string
  {
    Clip(Render(Scaled(size), UnitFor(size)))
  }

  /** format_size: scale, then print the whole value with one decimal and
      the unit label into the 20-byte buffer. Its only caller passes the
      size of a collected entry, which is at least 1; for such sizes the
      cast to double is exact. */
  method FormatSize(size: int) returns (text: string)
    requires 0 <= size <= LongLongMax
    ensures text == FormatText(size)
  {
    var value, unit := ScaleSize(size);
    text := Clip(Render(value, unit));
  }

  // ----- Properties of the scaling -----

  /** The unit index stays within the label table; the value is below 1024
      unless the unit is TB; scaling never turns a size of at least 1024
      into 0. */
  lemma ScaledBounds(size: int)
    ensures UnitFor(size) <= LastUnit
    ensures UnitFor(size) < LastUnit ==> Scaled(size) < 1024
    ensures size >= 0 ==> Scaled(size) >= 0
    ensures size >= 1024 ==> Scaled(size) >= 1
  {
    var k := UnitFor(size);
    PowSteps();
    if k < LastUnit {
      QuotientBelow(size, Pow1024(k), 1024);
      assert size < 1024 * Pow1024(k);
    }
    if size >= 1024 {
      QuotientBelow(size, Pow1024(k), 1);
    }
  }

  /** The value shown is the size truncated to whole units of 1024^k: the
      fraction that "%.1f" would show is always dropped before printing. */
  lemma ScaledTruncates(size: int)
    requires size >= 0
    ensures Scaled(size) * Pow1024(UnitFor(size)) <= size
    ensures size < (Scaled(size) + 1) * Pow1024(UnitFor(size))
  {
    var p := Pow1024(UnitFor(size));
    assert size == Scaled(size) * p + size % p;
  }

  /** Sizes below 1024 are printed unchanged in bytes. */
  lemma SmallSizesInBytes(size: int)
    requires size < 1024
    ensures UnitFor(size) == 0 && Scaled(size) == size
  {
    PowSteps();
  }

  /** Sizes of 1024^5 bytes and more stay in TB, with a value of 1024 or more. */
  lemma HugeSizesStayInTerabytes(size: int)
    requires size >= Pow1024(5)
    ensures UnitFor(size) == LastUnit
    ensures Scaled(size) == size / Pow1024(4) && Scaled(size) >= 1024
  {
    PowSteps();
    QuotientBelow(size, Pow1024(4), 1024);
  }

  /** A larger size never shows a smaller unit. */
  lemma UnitForMonotone(a: int, b: int)
    requires a <= b
    ensures UnitFor(a) <= UnitFor(b)
  {
  }

  /** For sizes in the same unit, a larger size never shows a smaller value. */
  lemma ScaledMonotoneWithinUnit(a: int, b: int)
    requires 0 <= a <= b && UnitFor(a) == UnitFor(b)
    ensures Scaled(a) <= Scaled(b)
  {
    var p := Pow1024(UnitFor(a));
    QuotientBelow(a, p, Scaled(b) + 1);
    assert b < (Scaled(b) + 1) * p by {
      assert b == Scaled(b) * p + b % p;
    }
  }

  /** Worked values: 1,572,864 bytes is shown as "1.0 MB" (not 1.5), and
      629,145,600 bytes as "600.0 MB"; 1024^4 bytes as "1.0 TB"; twice
      1024^5 bytes as "2048.0 TB". */
  lemma WorkedExamples()
    ensures UnitFor(1572864) == 2 && Scaled(1572864) == 1
    ensures UnitFor(629145600) == 2 && Scaled(629145600) == 600
    ensures UnitFor(1023) == 0 && Scaled(1023) == 1023
    ensures UnitFor(1024) == 1 && Scaled(1024) == 1
    ensures UnitFor(1099511627776) == 4 && Scaled(1099511627776) == 1
    ensures UnitFor(2251799813685248) == 4 && Scaled(2251799813685248) == 2048
  {
    PowSteps();
  }

  // ----- Properties of the text -----

  lemma {:induction false} DigitsAreDigits(n: nat)
    ensures forall i :: 0 <= i < |Digits(n)| ==> IsDigit(Digits(n)[i])
    decreases n
  {
    if n >= 10 {
      DigitsAreDigits(n / 10);
    }
  }

  /** Reading the printed digits back gives the number printed. */
  lemma {:induction false} DigitsRoundTrip(n: nat)
    ensures forall i :: 0 <= i < |Digits(n)| ==> IsDigit(Digits(n)[i])
    ensures DigitsValue(Digits(n)) == n
    decreases n
  {
    DigitsAreDigits(n);
    var s := Digits(n);
    if n >= 10 {
      DigitsRoundTrip(n / 10);
      assert s[..|s| - 1] == Digits(n / 10);
    }
  }

  function Pow10(d: nat): (p: nat)
    ensures p >= 1
  {
    if d == 0 then 1 else 10 * Pow10(d - 1)
  }

  /** A number below 10^d takes at most d digits. */
  lemma {:induction false} DigitsLength(n: nat, d: nat)
    requires d >= 1 && n < Pow10(d)
    ensures |Digits(n)| <= d
    decreases n
  {
    if n >= 10 {
      if d == 1 {
        assert false;
      }
      QuotientBelow(n, 10, Pow10(d - 1));
      DigitsLength(n / 10, d - 1);
    }
  }

  /** Every non-negative size a long long can hold renders in at most 12 characters, so
      the 20-byte buffer never truncates the text of a measured size, and
      that text is the digits of the scaled value, ".0", a space and the
      label. */
  lemma FormatTextNeverTruncated(size: int)
    requires 0 <= size <= LongLongMax
    ensures |Render(Scaled(size), UnitFor(size))| <= 12
    ensures FormatText(size) == Digits(Scaled(size)) + ".0 " + UnitLabels[UnitFor(size)]
  {
    ScaledBounds(size);
    PowSteps();
    var v := Scaled(size);
    if UnitFor(size) == LastUnit {
      QuotientBelow(size, Pow1024(4), 8388608);
      assert v < 10000000;
    }
    assert Pow10(7) == 10000000;
    DigitsLength(v, 7);
  }
}
