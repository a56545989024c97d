/** `format_cover_size`: the label logged for the side of the squared cover,
    `2000` -> `"2k"`, `1500` -> `"1.5k"`, `1234` -> `"1234"`. */
module CoverSize {
  import opened Wrappers
  import opened Ascii

  /** `str(n)` for any integer: a `-` exactly for negative numbers, then
      digits. `IntStringRoundTrip` reads it back. */
  function IntString(n: int): (text: string)
    ensures |text| > 0
    ensures text[0] == '-' <==> n < 0
  {
    if n < 0 then "-" + Decimal(-n) else Decimal(n)
  }

  /** The source divides by 1000 in floating point and prints with `.0f` or
      `.1f`; when the divisibility test holds that quotient is exact, so the
      label is written here with integer quotient and remainder. Python's `%`
      and Dafny's agree for a positive divisor, so the tests are the source's.
      In the `.1f` case a negative quotient prints as `-` and the magnitude. */
  function FormatCoverSize(n: int): (text: string)
    ensures |text| > 0
  {
    if n % 1000 == 0 then IntString(n / 1000) + "k"
    else if n % 100 == 0 then
      var m := if n < 0 then -n else n;
      var sign := if n < 0 then "-" else "";
      sign + Decimal(m / 1000) + "." + Decimal(m % 1000 / 100) + "k"
    else IntString(n)
  }

  /** The label carries the `k` unit exactly when the size is a whole number
      of hundreds. */
  lemma UnitSuffix(n: int)
    ensures var text := FormatCoverSize(n);
      text[|text| - 1] == 'k' <==> n % 100 == 0
  {
    if n % 1000 == 0 {
      ThousandsAreHundreds(n);
    }
  }

  /** A multiple of 1000 is a multiple of 100. */
  lemma ThousandsAreHundreds(n: int)
    requires n % 1000 == 0
    ensures n % 100 == 0
  {
    var q := n / 1000;
    assert n == 100 * (10 * q);
  }

  /** The three shapes of label, for non-negative sizes as they occur. */
  lemma Cases(n: nat)
    ensures n % 1000 == 0 ==> FormatCoverSize(n) == Decimal(n / 1000) + "k"
    ensures n % 1000 != 0 && n % 100 == 0 ==>
      FormatCoverSize(n) == Decimal(n / 1000) + "." + Decimal(n % 1000 / 100) + "k"
    ensures n % 100 != 0 ==> FormatCoverSize(n) == Decimal(n)
  {
    NonNegativeLabel(n);
  }

  /** Reads a label back into the size it stands for: an optional `-`, then
      `<digits>k`, `<digits>.<digit>k` or plain `<digits>`. */
  function ParseCoverSize(text: string): Option<int>
  {
    if |text| > 0 && text[0] == '-' then
      match ParseMagnitude(text[1..])
      case Some(v) => Some(-(v as int))
      case None => None
    else
      match ParseMagnitude(text)
      case Some(v) => Some(v)
      case None => None
  }

  function ParseMagnitude(t: string): Option<nat>
  {
    if |t| >= 2 && t[|t| - 1] == 'k' then
      var body := t[..|t| - 1];
      if |body| >= 3 && body[|body| - 2] == '.' && AllDigits(body[..|body| - 2]) && IsDigit(body[|body| - 1]) then
        Some(DigitsValue(body[..|body| - 2]) * 1000 + DigitValue(body[|body| - 1]) * 100)
      else if AllDigits(body) then
        Some(DigitsValue(body) * 1000)
      else
        None
    else if |t| > 0 && AllDigits(t) then
      Some(DigitsValue(t))
    else
      None
  }

  /** `<digits>k` reads back as the thousands it prints. */
  lemma ThousandsRoundTrip(q: nat)
    ensures ParseMagnitude(Decimal(q) + "k") == Some(q * 1000)
  {
    var t := Decimal(q) + "k";
    assert t[..|t| - 1] == Decimal(q);
    DecimalRoundTrip(q);
  }

  /** `<digits>.<digit>k` reads back as the thousands and hundreds it prints. */
  lemma HundredsRoundTrip(q: nat, d: nat)
    requires 1 <= d < 10
    ensures ParseMagnitude(Decimal(q) + "." + Decimal(d) + "k") == Some(q * 1000 + d * 100)
  {
    var t := Decimal(q) + "." + Decimal(d) + "k";
    assert Decimal(d) == [DigitChar(d)];
    var body := t[..|t| - 1];
    assert t[|t| - 1] == 'k';
    assert body == Decimal(q) + "." + [DigitChar(d)];
    assert body[|body| - 2] == '.';
    assert body[..|body| - 2] == Decimal(q);
    assert body[|body| - 1] == DigitChar(d);
    assert DigitValue(DigitChar(d)) == d;
    DecimalRoundTrip(q);
  }

  /** Plain digits read back as their value. */
  lemma PlainRoundTrip(m: nat)
    ensures ParseMagnitude(Decimal(m)) == Some(m)
  {
    DecimalRoundTrip(m);
    var t := Decimal(m);
    assert IsDigit(t[|t| - 1]);
  }

  /** The hundreds split of a multiple of 100 that is not one of 1000. */
  lemma HundredsSplit(m: nat)
    requires m % 100 == 0 && m % 1000 != 0
    ensures 1 <= m % 1000 / 100 < 10
    ensures m == m / 1000 * 1000 + m % 1000 / 100 * 100
  {
    var q := m / 1000;
    var r := m % 1000;
    assert m == 1000 * q + r;
    var d := r / 100;
    assert r == 100 * d + r % 100;
    assert (1000 * q + 100 * d + r % 100) % 100 == r % 100;
  }

  /** The label of a non-negative size reads back as that size. */
  lemma MagnitudeRoundTrip(m: nat)
    ensures ParseMagnitude(MagnitudeLabel(m)) == Some(m)
  {
    if m % 1000 == 0 {
      var q := m / 1000;
      assert MagnitudeLabel(m) == Decimal(q) + "k";
      ThousandsRoundTrip(q);
      assert q * 1000 == m;
    } else if m % 100 == 0 {
      var q, d := m / 1000, m % 1000 / 100;
      assert MagnitudeLabel(m) == Decimal(q) + "." + Decimal(d) + "k";
      HundredsSplit(m);
      HundredsRoundTrip(q, d);
    } else {
      assert MagnitudeLabel(m) == Decimal(m);
      PlainRoundTrip(m);
    }
  }

  /** The label of a size without its sign. */
  function MagnitudeLabel(m: nat): string
  {
    if m % 1000 == 0 then Decimal(m / 1000) + "k"
    else if m % 100 == 0 then Decimal(m / 1000) + "." + Decimal(m % 1000 / 100) + "k"
    else Decimal(m)
  }

  /** A label is the sign followed by the label of the magnitude. */
  lemma SignAndMagnitude(n: int)
    ensures n >= 0 ==> FormatCoverSize(n) == MagnitudeLabel(n)
    ensures n < 0 ==> FormatCoverSize(n) == "-" + MagnitudeLabel(-n)
  {
    if n >= 0 {
      NonNegativeLabel(n);
    } else {
      NegatedThousands(n);
      NegatedThousands(-n);
      NegatedHundreds(n);
      NegatedHundreds(-n);
      if n % 1000 == 0 {
        NegativeThousandsLabel(n);
      } else if n % 100 == 0 {
        NegativeHundredsLabel(n);
      } else {
        NegativePlainLabel(n);
      }
    }
  }

  lemma NonNegativeLabel(n: nat)
    ensures FormatCoverSize(n) == MagnitudeLabel(n)
  {
    if n % 1000 == 0 {
      assert IntString(n / 1000) == Decimal(n / 1000);
    } else if n % 100 != 0 {
      assert IntString(n) == Decimal(n);
    }
  }

  lemma NegativeThousandsLabel(n: int)
    requires n < 0 && n % 1000 == 0 && (-n) % 1000 == 0 && (-n) / 1000 == -(n / 1000)
    ensures FormatCoverSize(n) == "-" + MagnitudeLabel(-n)
  {
    assert n / 1000 < 0;
    assert IntString(n / 1000) == "-" + Decimal(-n / 1000);
  }

  lemma NegativeHundredsLabel(n: int)
    requires n < 0 && n % 1000 != 0 && (-n) % 1000 != 0 && n % 100 == 0 && (-n) % 100 == 0
    ensures FormatCoverSize(n) == "-" + MagnitudeLabel(-n)
  {
  }

  lemma NegativePlainLabel(n: int)
    requires n < 0 && n % 1000 != 0 && (-n) % 1000 != 0 && n % 100 != 0 && (-n) % 100 != 0
    ensures FormatCoverSize(n) == "-" + MagnitudeLabel(-n)
  {
  }

  lemma NegatedThousands(n: int)
    ensures n % 1000 == 0 ==> (-n) % 1000 == 0 && (-n) / 1000 == -(n / 1000)
  {
    if n % 1000 == 0 {
      var q := n / 1000;
      ExactThousands(-n, -q);
    }
  }

  lemma ExactThousands(x: int, q: int)
    requires x == 1000 * q
    ensures x % 1000 == 0 && x / 1000 == q
  {
  }

  lemma NegatedHundreds(n: int)
    ensures n % 100 == 0 ==> (-n) % 100 == 0
  {
    if n % 100 == 0 {
      var q := n / 100;
      assert -n == 100 * (-q) + 0;
    }
  }

  /** Every label reads back as the number it was made from. */
  lemma RoundTrip(n: int)
    ensures ParseCoverSize(FormatCoverSize(n)) == Some(n)
  {
    if n < 0 {
      NegativeRoundTrip(n);
    } else {
      NonNegativeRoundTrip(n);
    }
  }

  lemma NegativeRoundTrip(n: int)
    requires n < 0
    ensures ParseCoverSize(FormatCoverSize(n)) == Some(n)
  {
    var u := MagnitudeLabel(-n);
    assert FormatCoverSize(n) == "-" + u by { SignAndMagnitude(n); }
    assert ParseMagnitude(u) == Some(-n) by { MagnitudeRoundTrip(-n); }
    ParseNegative(u);
  }

  lemma NonNegativeRoundTrip(n: int)
    requires n >= 0
    ensures ParseCoverSize(FormatCoverSize(n)) == Some(n)
  {
    var u := MagnitudeLabel(n);
    assert FormatCoverSize(n) == u by { SignAndMagnitude(n); }
    assert ParseMagnitude(u) == Some(n) by { MagnitudeRoundTrip(n); }
    LabelStartsWithDigit(n);
    ParseNonNegative(u);
  }

  lemma ParseNegative(u: string)
    requires ParseMagnitude(u).Some?
    ensures ParseCoverSize("-" + u) == Some(-(ParseMagnitude(u).value as int))
  {
    assert ("-" + u)[0] == '-' && ("-" + u)[1..] == u;
  }

  lemma ParseNonNegative(u: string)
    requires ParseMagnitude(u).Some? && IsDigit(u[0])
    ensures ParseCoverSize(u) == Some(ParseMagnitude(u).value as int)
  {
  }

  lemma LabelStartsWithDigit(m: nat)
    ensures |MagnitudeLabel(m)| > 0 && IsDigit(MagnitudeLabel(m)[0])
  {
    var q := if m % 1000 == 0 || m % 100 == 0 then m / 1000 else m;
    assert MagnitudeLabel(m)[0] == Decimal(q)[0];
  }

  /** `str(n)` reads back as `n`, sign included. */
  lemma IntStringRoundTrip(n: int)
    ensures ParseCoverSize(IntString(n)) == Some(n)
  {
    if n < 0 {
      PlainRoundTrip(-n);
      ParseNegative(Decimal(-n));
    } else {
      PlainRoundTrip(n);
      ParseNonNegative(Decimal(n));
    }
  }

  /** Distinct sizes never share a label. */
  lemma Injective(a: int, b: int)
    requires FormatCoverSize(a) == FormatCoverSize(b)
    ensures a == b
  {
    RoundTrip(a);
    RoundTrip(b);
  }

  /** One sample size per branch. */
  lemma Examples()
    ensures FormatCoverSize(2000) == "2k"
    ensures FormatCoverSize(1500) == "1.5k"
    ensures FormatCoverSize(1234) == "1234"
  {
    ExampleThousands();
    ExampleHundreds();
    ExamplePlain();
  }

  lemma ExampleThousands()
    ensures FormatCoverSize(2000) == "2k"
  {
    assert Decimal(2) == "2";
  }

  lemma ExampleHundreds()
    ensures FormatCoverSize(1500) == "1.5k"
  {
    assert Decimal(1) == "1" && Decimal(5) == "5";
  }

  lemma ExamplePlain()
    ensures FormatCoverSize(1234) == "1234"
  {
    assert Decimal(12) == Decimal(1) + [DigitChar(2)] == "12";
    assert Decimal(123) == Decimal(12) + [DigitChar(3)] == "123";
    assert Decimal(1234) == Decimal(123) + [DigitChar(4)] == "1234";
  }
}
