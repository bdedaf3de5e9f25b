/**
 * `month_period`: read a "year-month" string the way `strptime(s, "%Y-%m")`
 * does, write it back with `strftime("%Y-%m")`, and fall back to the current
 * month when the string does not parse. The current month is a parameter.
 */
module Months {
  import opened Wrappers
  import opened Digits

  datatype YearMonth = YearMonth(year: nat, month: nat)

  /** The year and month a `datetime` can hold. */
  predicate ValidYearMonth(ym: YearMonth) {
    1 <= ym.year <= 9999 && 1 <= ym.month <= 12
  }

  /** `strftime("%Y-%m")`: four-digit year, dash, two-digit month. */
  function Format(ym: YearMonth): string {
    Padded(ym.year, 4) + "-" + Padded(ym.month, 2)
  }

  /**
   * The `%m` field and the end-of-input check of `strptime`: the first of the
   * alternatives `1[0-2]`, `0[1-9]`, `[1-9]` that matches is taken, and the
   * parse fails if any text is left after it.
   */
  function ParseMonthField(r: string): (m: Option<nat>)
    ensures m.Some? ==> 1 <= m.value <= 12
  {
    if |r| >= 2 && r[0] == '1' && '0' <= r[1] <= '2' then
      if |r| == 2 then Some(10 + DigitValue(r[1])) else None
    else if |r| >= 2 && r[0] == '0' && '1' <= r[1] <= '9' then
      if |r| == 2 then Some(DigitValue(r[1])) else None
    else if |r| >= 1 && '1' <= r[0] <= '9' then
      if |r| == 1 then Some(DigitValue(r[0])) else None
    else
      None
  }

  /**
   * `strptime(s, "%Y-%m")`: exactly four digits, a dash, then the month field.
   * Year 0 passes the pattern but `datetime` rejects it.
   */
  function Parse(s: string): (r: Option<YearMonth>)
    ensures r.Some? ==> ValidYearMonth(r.value)
  {
    if |s| < 5 || !AllDigits(s[..4]) || s[4] != '-' then None
    else
      var year := Value(s[..4]);
      match ParseMonthField(s[5..])
      case None => None
      case Some(m) => if year == 0 then None else Some(YearMonth(year, m))
  }

  /** `month_period(s)`, with `now` standing for `datetime.now()`. */
  function MonthPeriod(s: string, now: YearMonth): string {
    match Parse(s)
    case Some(ym) => Format(ym)
    case None => Format(now)
  }

  /** A canonical month string: `YYYY-MM` with a year from 1 and a month 01 to 12. */
  ghost predicate WellFormed(s: string) {
    && |s| == 7
    && s[4] == '-'
    && AllDigits(s[..4]) && AllDigits(s[5..])
    && Value(s[..4]) >= 1
    && 1 <= Value(s[5..]) <= 12
  }

  /** The month field of a formatted month reads back as that month. */
  lemma MonthFieldRoundTrip(m: nat)
    requires 1 <= m <= 12
    ensures ParseMonthField(Padded(m, 2)) == Some(m)
  {
    var r := Padded(m, 2);
    PaddedTwo(m);
    assert r[0] == DigitChar(m / 10) && r[1] == DigitChar(m % 10);
    if m >= 10 {
      assert r[0] == '1' && DigitValue(r[1]) == m - 10;
    } else {
      assert r[0] == '0' && DigitValue(r[1]) == m;
    }
  }

  /** Formatting a valid month and parsing the text gives the month back. */
  lemma ParseFormat(ym: YearMonth)
    requires ValidYearMonth(ym)
    ensures Parse(Format(ym)) == Some(ym)
    ensures WellFormed(Format(ym))
  {
    var s := Format(ym);
    assert s[..4] == Padded(ym.year, 4);
    assert s[5..] == Padded(ym.month, 2);
    ValuePadded(ym.year, 4);
    ValuePadded(ym.month, 2);
    MonthFieldRoundTrip(ym.month);
  }

  /** Two valid months with the same text are the same month. */
  lemma FormatInjective(a: YearMonth, b: YearMonth)
    requires ValidYearMonth(a) && ValidYearMonth(b)
    ensures Format(a) == Format(b) <==> a == b
  {
    ParseFormat(a);
    ParseFormat(b);
  }

  /**
   * Exactly two spellings parse as a month: the zero-padded `YYYY-MM`, and for
   * months 1 to 9 also `YYYY-M`.
   */
  lemma ParseAccepts(s: string, ym: YearMonth)
    ensures Parse(s) == Some(ym) <==>
            && ValidYearMonth(ym)
            && (|| s == Format(ym)
                || (ym.month < 10 && s == Padded(ym.year, 4) + "-" + [DigitChar(ym.month)]))
  {
    if Parse(s) == Some(ym) {
      var r := s[5..];
      PaddedValue(s[..4]);
      assert s == s[..4] + "-" + r;
      if |r| == 2 {
        DigitCharValue(r[1]);
        PaddedTwo(ym.month);
        assert r == Padded(ym.month, 2);
      } else {
        DigitCharValue(r[0]);
        assert r == [DigitChar(ym.month)];
      }
    }
    if ValidYearMonth(ym) {
      if s == Format(ym) {
        ParseFormat(ym);
      } else if ym.month < 10 && s == Padded(ym.year, 4) + "-" + [DigitChar(ym.month)] {
        assert s[..4] == Padded(ym.year, 4);
        assert s[5..] == [DigitChar(ym.month)];
        ValuePadded(ym.year, 4);
      }
    }
  }

  /** Given a valid current month, the result is always a canonical month string. */
  lemma MonthPeriodWellFormed(s: string, now: YearMonth)
    requires ValidYearMonth(now)
    ensures WellFormed(MonthPeriod(s, now))
  {
    match Parse(s)
    case Some(ym) => ParseFormat(ym);
    case None => ParseFormat(now);
  }

  /** A canonical month string is read as its own month and left unchanged. */
  lemma WellFormedIsFixed(s: string, now: YearMonth)
    requires WellFormed(s)
    ensures MonthPeriod(s, now) == s
  {
    var ym := YearMonth(Value(s[..4]), Value(s[5..]));
    PaddedValue(s[..4]);
    PaddedValue(s[5..]);
    assert s == Format(ym);
    ParseFormat(ym);
  }

  /** `month_period` is idempotent. */
  lemma MonthPeriodIdempotent(s: string, now: YearMonth)
    requires ValidYearMonth(now)
    ensures MonthPeriod(MonthPeriod(s, now), now) == MonthPeriod(s, now)
  {
    MonthPeriodWellFormed(s, now);
    WellFormedIsFixed(MonthPeriod(s, now), now);
  }

  /** A month without leading zero is padded. */
  lemma MonthPeriodPads(now: YearMonth)
    ensures MonthPeriod("2024-3", now) == "2024-03"
  {
    PaddedYear2024();
    PaddedTwo(3);
    ParseAccepts("2024-3", YearMonth(2024, 3));
  }

  /** A canonical month is kept. */
  lemma MonthPeriodKeeps(now: YearMonth)
    ensures MonthPeriod("2024-12", now) == "2024-12"
  {
    PaddedYear2024();
    PaddedTwo(12);
    ParseAccepts("2024-12", YearMonth(2024, 12));
  }

  /** A month out of range falls back to `now`: month 13, month 00. */
  lemma MonthPeriodRejectsMonth(now: YearMonth)
    ensures MonthPeriod("2024-13", now) == Format(now)
    ensures MonthPeriod("2024-00", now) == Format(now)
  {
    assert "2024-13"[5..] == "13";
    assert "2024-00"[5..] == "00";
  }

  /** Trailing text, a short year, year 0 and "" fall back to `now`. */
  lemma MonthPeriodRejectsShape(now: YearMonth)
    ensures MonthPeriod("2024-03x", now) == Format(now)
    ensures MonthPeriod("24-03", now) == Format(now)
    ensures MonthPeriod("0000-05", now) == Format(now)
    ensures MonthPeriod("", now) == Format(now)
  {
    assert "2024-03x"[5..] == "03x";
    assert "24-03"[4] == '3';
    assert "0000-05"[..4] == "0000";
    assert Value("0000") == 0 by {
      assert "0000"[..3] == "000" && "000"[..2] == "00" && "00"[..1] == "0" && "0"[..0] == "";
    }
  }

  lemma PaddedYear2024()
    ensures Padded(2024, 4) == "2024"
  {
    assert Padded(2, 1) == "2";
    assert Padded(20, 2) == "20";
    assert Padded(202, 3) == "202";
  }
}
