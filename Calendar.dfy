/**
 * Calendar dates as Python's `datetime` holds them, and the two
 * `strftime` renderings the sync script uses: `%Y-%m-%d` and `%Y%m`.
 */
module Calendar {
  import opened Integers

  datatype Date = Date(year: int, month: int, day: int)

  predicate IsLeapYear(y: int) {
    y % 4 == 0 && (y % 100 != 0 || y % 400 == 0)
  }

  function DaysInMonth(y: int, m: int): int
    requires 1 <= m <= 12
  {
    if m == 2 then (if IsLeapYear(y) then 29 else 28)
    else if m == 4 || m == 6 || m == 9 || m == 11 then 30
    else 31
  }

  /** What `datetime` admits: years 1 to 9999 and a day that exists in its month. */
  predicate Valid(d: Date) {
    1 <= d.year <= 9999 && 1 <= d.month <= 12 && 1 <= d.day <= DaysInMonth(d.year, d.month)
  }

  type CalendarDate = d: Date | Valid(d) witness Date(1, 1, 1)

  /** `d.strftime('%Y-%m-%d')`, the form of the report date and of the CSV `Date` column. */
  function IsoDate(d: CalendarDate): (s: string)
    ensures |s| == 10 && s[4] == '-' && s[7] == '-'
  {
    FieldWidths(d);
    Pad(d.year, 4) + "-" + Pad(d.month, 2) + "-" + Pad(d.day, 2)
  }

  /** `d.strftime('%Y%m')`, the month key of the monthly export. */
  function YearMonth(d: CalendarDate): (s: string)
    ensures |s| == 6 && AllDigits(s)
  {
    FieldWidths(d);
    Pad(d.year, 4) + Pad(d.month, 2)
  }

  /** Each field of a valid date fills its `strftime` width exactly and reads back as the field. */
  lemma {:induction false} FieldWidths(d: CalendarDate)
    ensures |Pad(d.year, 4)| == 4 && DigitsValue(Pad(d.year, 4)) == d.year
    ensures |Pad(d.month, 2)| == 2 && DigitsValue(Pad(d.month, 2)) == d.month
    ensures |Pad(d.day, 2)| == 2 && DigitsValue(Pad(d.day, 2)) == d.day
  {
    assert Pow10(2) == 100;
    assert Pow10(4) == 10000 by {
      assert Pow10(3) == 1000;
    }
    DecimalFits(d.year, 4);
    DecimalFits(d.month, 2);
    DecimalFits(d.day, 2);
    PadValue(d.year, 4);
    PadValue(d.month, 2);
    PadValue(d.day, 2);
  }

  /** `%Y-%m-%d` is ten characters: year digits, dash, month digits, dash, day digits. */
  lemma IsoDateLayout(d: CalendarDate)
    ensures var s := IsoDate(d);
      && |s| == 10 && s[4] == '-' && s[7] == '-'
      && AllDigits(s[..4]) && DigitsValue(s[..4]) == d.year
      && AllDigits(s[5..7]) && DigitsValue(s[5..7]) == d.month
      && AllDigits(s[8..]) && DigitsValue(s[8..]) == d.day
  {
    FieldWidths(d);
    var s := IsoDate(d);
    assert s[..4] == Pad(d.year, 4);
    assert s[5..7] == Pad(d.month, 2);
    assert s[8..] == Pad(d.day, 2);
  }

  /** Two dates print the same `%Y-%m-%d` text exactly when they are the same date. */
  lemma IsoDateInjective(a: CalendarDate, b: CalendarDate)
    ensures IsoDate(a) == IsoDate(b) <==> a == b
  {
    IsoDateLayout(a);
    IsoDateLayout(b);
  }

  /** `%Y%m` is six digits: the four of the year, then the two of the month. */
  lemma YearMonthLayout(d: CalendarDate)
    ensures var s := YearMonth(d);
      && |s| == 6 && AllDigits(s)
      && DigitsValue(s[..4]) == d.year && DigitsValue(s[4..]) == d.month
  {
    FieldWidths(d);
    var s := YearMonth(d);
    assert s[..4] == Pad(d.year, 4);
    assert s[4..] == Pad(d.month, 2);
  }

  /** Two dates share a `%Y%m` key exactly when they fall in the same month of the same year. */
  lemma YearMonthInjective(a: CalendarDate, b: CalendarDate)
    ensures YearMonth(a) == YearMonth(b) <==> a.year == b.year && a.month == b.month
  {
    YearMonthLayout(a);
    YearMonthLayout(b);
  }

  /** The month key is the `%Y-%m-%d` text with the dashes and the day taken out. */
  lemma YearMonthOfIsoDate(d: CalendarDate)
    ensures YearMonth(d) == IsoDate(d)[..4] + IsoDate(d)[5..7]
  {
    FieldWidths(d);
    var s := IsoDate(d);
    assert s[..4] == Pad(d.year, 4);
    assert s[5..7] == Pad(d.month, 2);
  }
}
