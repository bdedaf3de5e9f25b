/**
 * The text of the date and amount columns of the transaction file: how a
 * date and an amount in cents are written, and how they are read back.
 */
module Fields {
  import opened Wrappers
  import opened Digits

  datatype Date = Date(year: nat, month: nat, day: nat)

  predicate IsLeapYear(y: nat) {
    y % 4 == 0 && (y % 100 != 0 || y % 400 == 0)
  }

  function DaysInMonth(y: nat, m: nat): nat {
    if m == 2 then (if IsLeapYear(y) then 29 else 28)
    else if m == 4 || m == 6 || m == 9 || m == 11 then 30
    else 31
  }

  /** A calendar date with a year from 1 to 9999. */
  predicate ValidDate(d: Date) {
    1 <= d.year <= 9999 && 1 <= d.month <= 12 && 1 <= d.day <= DaysInMonth(d.year, d.month)
  }

  /** `strftime("%Y-%m-%d")`. */
  function FormatDate(d: Date): string {
    Padded(d.year, 4) + "-" + Padded(d.month, 2) + "-" + Padded(d.day, 2)
  }

  /** The cents part as Python writes a float: trailing zero dropped, at least one digit. */
  function FractionText(f: nat): string
    requires f < 100
  {
    if f % 10 == 0 then [DigitChar(f / 10)] else Padded(f, 2)
  }

  /** `str(float(amount))` for an amount in cents, e.g. 1250 gives "12.5" and 1200 gives "12.0". */
  function FormatAmount(cents: nat): string {
    Decimal(cents / 100) + "." + FractionText(cents % 100)
  }

  /** A `YYYY-MM-DD` field read back as a calendar date. */
  function ParseDate(s: string): (r: Option<Date>)
    ensures r.Some? ==> ValidDate(r.value)
  {
    if |s| != 10 || s[4] != '-' || s[7] != '-'
       || !AllDigits(s[..4]) || !AllDigits(s[5..7]) || !AllDigits(s[8..]) then None
    else
      var d := Date(Value(s[..4]), Value(s[5..7]), Value(s[8..]));
      if ValidDate(d) then Some(d) else None
  }

  /** The digits before and after the point, as cents; one digit after the point is tens of cents. */
  function ParseCents(whole: string, frac: string): Option<nat> {
    if |whole| >= 1 && AllDigits(whole) && 1 <= |frac| <= 2 && AllDigits(frac) then
      Some(Value(whole) * 100 + (if |frac| == 1 then Value(frac) * 10 else Value(frac)))
    else
      None
  }

  /** An amount field read back in cents: digits, optionally a point and one or two digits. */
  function ParseAmount(s: string): Option<nat> {
    if |s| >= 2 && s[|s| - 2] == '.' then ParseCents(s[..|s| - 2], s[|s| - 1..])
    else if |s| >= 3 && s[|s| - 3] == '.' then ParseCents(s[..|s| - 3], s[|s| - 2..])
    else if |s| >= 1 && AllDigits(s) then Some(Value(s) * 100)
    else None
  }

  lemma DateRoundTrip(d: Date)
    requires ValidDate(d)
    ensures ParseDate(FormatDate(d)) == Some(d)
  {
    var s := FormatDate(d);
    assert s[..4] == Padded(d.year, 4);
    assert s[5..7] == Padded(d.month, 2);
    assert s[8..] == Padded(d.day, 2);
    ValuePadded(d.year, 4);
    ValuePadded(d.month, 2);
    ValuePadded(d.day, 2);
  }

  /** Whole tens of cents are written with one digit after the point, and read back. */
  lemma AmountOneDigit(cents: nat)
    requires cents % 100 % 10 == 0
    ensures var s := FormatAmount(cents); s[|s| - 2] == '.' && IsDigit(s[|s| - 1])
    ensures ParseAmount(FormatAmount(cents)) == Some(cents)
  {
    var w := Decimal(cents / 100);
    var frac := FractionText(cents % 100);
    var s := FormatAmount(cents);
    ValueDecimal(cents / 100);
    assert ParseAmount(s) == ParseCents(w, frac) by {
      assert s[|s| - 2] == '.' && s[..|s| - 2] == w && s[|s| - 1..] == frac;
    }
    assert Value(frac) == cents % 100 / 10 by {
      assert frac[..0] == "";
    }
  }

  /** Other amounts are written with two digits after the point, and read back. */
  lemma AmountTwoDigits(cents: nat)
    requires cents % 100 % 10 != 0
    ensures var s := FormatAmount(cents); s[|s| - 3] == '.' && IsDigit(s[|s| - 2]) && IsDigit(s[|s| - 1]) && s[|s| - 1] != '0'
    ensures ParseAmount(FormatAmount(cents)) == Some(cents)
  {
    PaddedTwo(cents % 100);
    var w := Decimal(cents / 100);
    var frac := FractionText(cents % 100);
    var s := FormatAmount(cents);
    ValueDecimal(cents / 100);
    assert ParseAmount(s) == ParseCents(w, frac) by {
      assert s[|s| - 2] == frac[0] && IsDigit(frac[0]);
      assert s[|s| - 3] == '.' && s[..|s| - 3] == w && s[|s| - 2..] == frac;
    }
    ValuePadded(cents % 100, 2);
  }

  /** The text of the float for 12.50, 12.00 and 12.05 dollars. */
  lemma AmountExamples()
    ensures FormatAmount(1250) == "12.5"
    ensures FormatAmount(1200) == "12.0"
    ensures FormatAmount(1205) == "12.05"
  {
    PaddedTwo(5);
    assert Decimal(12) == "12";
  }

  /** An amount written as Python writes the float reads back as the same cents. */
  lemma AmountRoundTrip(cents: nat)
    ensures ParseAmount(FormatAmount(cents)) == Some(cents)
  {
    if cents % 100 % 10 == 0 {
      AmountOneDigit(cents);
    } else {
      AmountTwoDigits(cents);
    }
  }
}
