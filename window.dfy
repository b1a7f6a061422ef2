/**
 * The query window of the upcoming-events endpoints: the `limit`, `start` and
 * `end` query arguments, their defaults, and the `%Y/%m/%d` date text that
 * `strftime` writes and `datetime.strptime` reads.
 */
module Window {
  import opened Wrappers
  import opened Decimal
  import opened Calendar

  /** The query arguments as text; `None` when the argument is absent. */
  datatype QueryArgs = QueryArgs(limit: Option<string>, start: Option<string>, end: Option<string>)

  /** A parsed window: both bounds are inclusive in the overlap test. */
  datatype Span = Span(limit: int, start: ValidDate, end: ValidDate)

  /** The client error the endpoints answer with when an argument does not parse. */
  const InvalidArgsStatus := 410

  const DefaultLimit := 60

  const DefaultMonths := 6

  /** `strftime("%Y/%m/%d")`, with the year zero-padded to four digits. */
  function FormatSlashed(d: ValidDate): (s: string)
    ensures |s| == 10 && s[4] == '/' && s[7] == '/'
  {
    DateText(d, '/')
  }

  /** The `%Y` directive of `strptime`: exactly four digits. Yields the value and the rest. */
  function MatchYear(s: string): (r: Option<(nat, string)>)
    ensures r.Some? ==> |s| >= 4 && AllDigits(s[..4]) && r.value == (DigitsValue(s[..4]), s[4..])
  {
    if |s| >= 4 && AllDigits(s[..4]) then Some((DigitsValue(s[..4]), s[4..])) else None
  }

  function TwoDigits(a: char, b: char): nat
    requires IsDigit(a) && IsDigit(b)
  {
    DigitValue(a) * 10 + DigitValue(b)
  }

  /**
   * The `%m` directive, alternatives `1[0-2]|0[1-9]|[1-9]` tried in order.
   * Because `/` follows, backtracking to a later alternative never succeeds
   * where an earlier one matched, so the first match is the only candidate.
   */
  function MatchMonth(s: string): (r: Option<(nat, string)>)
    ensures r.Some? ==> 1 <= r.value.0 <= 12 && |s| >= 1 && (r.value.1 == s[1..] || (|s| >= 2 && r.value.1 == s[2..]))
  {
    if |s| >= 2 && s[0] == '1' && '0' <= s[1] <= '2' then Some((TwoDigits(s[0], s[1]), s[2..]))
    else if |s| >= 2 && s[0] == '0' && '1' <= s[1] <= '9' then Some((DigitValue(s[1]), s[2..]))
    else if |s| >= 1 && '1' <= s[0] <= '9' then Some((DigitValue(s[0]), s[1..]))
    else None
  }

  /**
   * The `%d` directive, alternatives `3[01]|[12]\d|0[1-9]|[1-9]| [1-9]` tried in
   * order. It ends the format, so the first alternative that matches is taken and
   * whatever it leaves over is "unconverted data".
   */
  function MatchDay(s: string): (r: Option<(nat, string)>)
    ensures r.Some? ==> 1 <= r.value.0 <= 31 && |s| >= 1 && (r.value.1 == s[1..] || (|s| >= 2 && r.value.1 == s[2..]))
  {
    if |s| >= 2 && s[0] == '3' && (s[1] == '0' || s[1] == '1') then Some((TwoDigits(s[0], s[1]), s[2..]))
    else if |s| >= 2 && (s[0] == '1' || s[0] == '2') && IsDigit(s[1]) then Some((TwoDigits(s[0], s[1]), s[2..]))
    else if |s| >= 2 && s[0] == '0' && '1' <= s[1] <= '9' then Some((DigitValue(s[1]), s[2..]))
    else if |s| >= 1 && '1' <= s[0] <= '9' then Some((DigitValue(s[0]), s[1..]))
    else if |s| >= 2 && s[0] == ' ' && '1' <= s[1] <= '9' then Some((DigitValue(s[1]), s[2..]))
    else None
  }

  /**
   * `datetime.strptime(s, "%Y/%m/%d")` as a date; `None` is the ValueError raised
   * for text that does not match, for text left over, and for a day or year out of range.
   */
  function ParseSlashed(s: string): (r: Option<ValidDate>)
    ensures r.Some? ==> 8 <= |s| <= 10 && s[4] == '/' && AllDigits(s[..4]) && DigitsValue(s[..4]) == r.value.year
  {
    match MatchYear(s)
    case None => None
    case Some((y, r1)) =>
      if r1 == [] || r1[0] != '/' then None
      else match MatchMonth(r1[1..])
      case None => None
      case Some((m, r2)) =>
        if r2 == [] || r2[0] != '/' then None
        else match MatchDay(r2[1..])
        case None => None
        case Some((d, r3)) =>
          if r3 != [] then None
          else if IsValid(Date(y, m, d)) then Some(Date(y, m, d))
          else None
  }

  /** Parsing what `strftime("%Y/%m/%d")` wrote gives back the same date. */
  lemma SlashedRoundTrip(d: ValidDate)
    ensures ParseSlashed(FormatSlashed(d)) == Some(d)
  {
    var y, m, dd := Pad(d.year, 4), Pad(d.month, 2), Pad(d.day, 2);
    Pad2Digits(d.month);
    Pad2Digits(d.day);
    var s := FormatSlashed(d);
    var tail := "/" + m + "/" + dd;
    assert |y| == 4;
    assert s == y + tail;
    assert s[..4] == y && s[4..] == tail;
    assert MatchYear(s) == Some((d.year, tail));
    assert tail[1..] == m + ("/" + dd);
    MonthDigitsMatch(d.month, "/" + dd);
    assert ("/" + dd)[1..] == dd;
    DayDigitsMatch(d.day);
  }

  lemma MonthDigitsMatch(m: nat, rest: string)
    requires 1 <= m <= 12
    ensures MatchMonth(Pad(m, 2) + rest) == Some((m, rest))
  {
    Pad2Digits(m);
    var s := Pad(m, 2) + rest;
    DigitRoundTrip(m / 10);
    DigitRoundTrip(m % 10);
    assert s[2..] == rest;
    if m >= 10 {
      assert s[0] == '1' && '0' <= s[1] <= '2';
    } else {
      assert s[0] == '0' && '1' <= s[1] <= '9';
    }
  }

  lemma DayDigitsMatch(d: nat)
    requires 1 <= d <= 31
    ensures MatchDay(Pad(d, 2)).Some?
    ensures MatchDay(Pad(d, 2)).value.0 == d && MatchDay(Pad(d, 2)).value.1 == []
  {
    Pad2Digits(d);
    var s := Pad(d, 2);
    DigitRoundTrip(d / 10);
    DigitRoundTrip(d % 10);
    if d >= 30 {
      assert s[0] == '3' && (s[1] == '0' || s[1] == '1');
    } else if d >= 10 {
      assert s[0] == '1' || s[0] == '2';
    } else {
      assert s[0] == '0' && '1' <= s[1] <= '9';
    }
  }

  /** The default end: six calendar months after today; `None` when that passes year 9999. */
  function DefaultEnd(today: ValidDate): (r: Option<ValidDate>)
    ensures r.Some? <==> today.year < 9999 || today.month <= 6
    ensures r.Some? ==> MonthNumber(r.value.year, r.value.month) == MonthNumber(today.year, today.month) + DefaultMonths
    ensures r.Some? ==> r.value.day == today.day
                        || (r.value.day == DaysInMonth(r.value.year, r.value.month) && r.value.day < today.day)
  {
    AddMonths(today, DefaultMonths)
  }

  /**
   * The argument handling shared by `upcoming_events` and `upcoming_events_feed`.
   * Python evaluates both defaults eagerly, so a default end past year 9999 is an
   * error even when `end` is given. Every failure is the same client error.
   */
  function ParseWindow(today: ValidDate, args: QueryArgs): (r: Result<Span, int>)
    ensures r.Err? ==> r.error == InvalidArgsStatus
    ensures r.Ok? <==>
              && (args.limit.None? || ParseInt(args.limit.value).Some?)
              && (args.start.None? || ParseSlashed(args.start.value).Some?)
              && DefaultEnd(today).Some?
              && (args.end.None? || ParseSlashed(args.end.value).Some?)
    ensures r.Ok? ==> r.value.limit == (if args.limit.None? then DefaultLimit else ParseInt(args.limit.value).value)
    ensures r.Ok? ==> r.value.start == (if args.start.None? then today else ParseSlashed(args.start.value).value)
    ensures r.Ok? ==> r.value.end == (if args.end.None? then DefaultEnd(today).value else ParseSlashed(args.end.value).value)
  {
    var limit := if args.limit.None? then Some(DefaultLimit) else ParseInt(args.limit.value);
    var startText := if args.start.None? then FormatSlashed(today) else args.start.value;
    SlashedRoundTrip(today);
    var start := ParseSlashed(startText);
    var defaultEnd := DefaultEnd(today);
    if limit.None? || start.None? || defaultEnd.None? then Err(InvalidArgsStatus)
    else
      var endText := if args.end.None? then FormatSlashed(defaultEnd.value) else args.end.value;
      SlashedRoundTrip(defaultEnd.value);
      var end := ParseSlashed(endText);
      if end.None? then Err(InvalidArgsStatus)
      else Ok(Span(limit.value, start.value, end.value))
  }

  /** With no arguments the window is [today, today + 6 months] with limit 60. */
  lemma DefaultWindow(today: ValidDate)
    requires DefaultEnd(today).Some?
    ensures ParseWindow(today, QueryArgs(None, None, None)) == Ok(Span(DefaultLimit, today, DefaultEnd(today).value))
  {
  }

  /** A `limit` that is not integer text yields the client error whatever the dates. */
  lemma NonIntegerLimitRejected(today: ValidDate, args: QueryArgs)
    requires args.limit.Some? && ParseInt(args.limit.value).None?
    ensures ParseWindow(today, args) == Err(InvalidArgsStatus)
  {
  }

  /** Text like `2024-01-05` is not a `%Y/%m/%d` date; neither is `2024/02/30`. */
  lemma MalformedDatesRejected()
    ensures ParseSlashed("2024-01-05") == None
    ensures ParseSlashed("2024/02/30") == None
  {
    assert "2024-01-05"[4..] == "-01-05";
    var r := "2024/02/30"[4..];
    assert r == "/02/30" && r[1..] == "02/30";
    assert MatchMonth(r[1..]) == Some((2, "/30"));
    assert MatchDay("30").value.0 == 30;
  }
}
