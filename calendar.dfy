/**
 * Proleptic Gregorian calendar dates as Python's `datetime.date` holds them
 * (years 1 to 9999), the month arithmetic of `relativedelta(months=n)`, and
 * the ISO 8601 calendar-date text of `date.isoformat()` / `str(date)`.
 */
module Calendar {
  import opened Wrappers
  import opened Decimal

  datatype Date = Date(year: int, month: int, day: int)

  predicate IsLeapYear(y: int)
  {
    y % 4 == 0 && (y % 100 != 0 || y % 400 == 0)
  }

  function DaysInMonth(y: int, m: int): (n: int)
    requires 1 <= m <= 12
    ensures 28 <= n <= 31
    ensures n == 29 <==> m == 2 && IsLeapYear(y)
  {
    if m == 2 then (if IsLeapYear(y) then 29 else 28)
    else if m == 4 || m == 6 || m == 9 || m == 11 then 30
    else 31
  }

  /** What `datetime.date(year, month, day)` accepts without a ValueError. */
  predicate IsValid(d: Date)
  {
    && 1 <= d.year <= 9999
    && 1 <= d.month <= 12
    && 1 <= d.day <= DaysInMonth(d.year, d.month)
  }

  /** A date object: every date the program handles satisfies `IsValid`. */
  type ValidDate = d: Date | IsValid(d) witness Date(1, 1, 1)

  /** Chronological order of dates (`<=` on `datetime.date`). */
  predicate LessEq(a: Date, b: Date)
  {
    a.year < b.year || (a.year == b.year && (a.month < b.month || (a.month == b.month && a.day <= b.day)))
  }

  /** Months since January of year 0; consecutive calendar months differ by one. */
  function MonthNumber(year: int, month: int): int
  {
    year * 12 + month - 1
  }

  /**
   * `d + relativedelta(months=n)`: the month moves forward `n` places, rolling
   * the year over, and the day is clamped to the length of the target month.
   * `None` stands for the ValueError `date.replace` raises past year 9999.
   */
  function AddMonths(d: ValidDate, n: nat): (r: Option<ValidDate>)
    ensures r.Some? <==> MonthNumber(d.year, d.month) + n < MonthNumber(10000, 1)
    ensures r.Some? ==> MonthNumber(r.value.year, r.value.month) == MonthNumber(d.year, d.month) + n
    ensures r.Some? && d.day <= DaysInMonth(r.value.year, r.value.month) ==> r.value.day == d.day
    ensures r.Some? && d.day > DaysInMonth(r.value.year, r.value.month) ==>
              r.value.day == DaysInMonth(r.value.year, r.value.month)
  {
    var total := d.month - 1 + n;
    var year := d.year + total / 12;
    var month := total % 12 + 1;
    var last := DaysInMonth(year, month);
    if year > 9999 then None
    else Some(Date(year, month, if d.day <= last then d.day else last))
  }

  /** The zero-padded year, month and day, each pair joined by `sep`, as `%Y`, `%m` and `%d` write them. */
  function DateText(d: ValidDate, sep: char): (s: string)
    ensures |s| == 10 && s[4] == sep && s[7] == sep
    ensures s[..4] == Pad(d.year, 4) && s[5..7] == Pad(d.month, 2) && s[8..] == Pad(d.day, 2)
  {
    Pad(d.year, 4) + [sep] + Pad(d.month, 2) + [sep] + Pad(d.day, 2)
  }

  /** `date.isoformat()`: `YYYY-MM-DD`, the extended calendar-date form of ISO 8601. */
  function IsoFormat(d: ValidDate): (s: string)
    ensures |s| == 10 && s[4] == '-' && s[7] == '-'
  {
    DateText(d, '-')
  }

  /** Reads the extended calendar-date form `YYYY-MM-DD` back; `None` for any other text. */
  function ParseIso(s: string): Option<ValidDate>
  {
    if |s| == 10 && s[4] == '-' && s[7] == '-'
       && AllDigits(s[..4]) && AllDigits(s[5..7]) && AllDigits(s[8..])
    then
      var d := Date(DigitsValue(s[..4]), DigitsValue(s[5..7]), DigitsValue(s[8..]));
      if IsValid(d) then Some(d) else None
    else None
  }

  /** The ISO text of a date reads back as that date. */
  lemma IsoRoundTrip(d: ValidDate)
    ensures |IsoFormat(d)| == 10
    ensures ParseIso(IsoFormat(d)) == Some(d)
  {
    var s := IsoFormat(d);
    assert s[..4] == Pad(d.year, 4) && s[5..7] == Pad(d.month, 2) && s[8..] == Pad(d.day, 2);
  }

  /** The default window end of a query made on 15 August 2024. */
  lemma SixMonthsAfterMidAugust()
    ensures AddMonths(Date(2024, 8, 15), 6) == Some(Date(2025, 2, 15))
    ensures AddMonths(Date(2023, 8, 31), 6) == Some(Date(2024, 2, 29))
  {
  }
}
