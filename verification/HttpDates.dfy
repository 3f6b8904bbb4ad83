/** The three `HTTP-date` formats of section 5.6.7 of RFC 9110.  Instants are seconds since 1970. */
module HttpDates {
  import opened Options
  import opened Text
  import CookieDates

  function TwoDigits(token: string): Option<nat> {
    if token == "" || |token| > 2 || !AllDigits(token) then None else Some(Decimal(token))
  }

  function TimeOf(token: string): Option<CookieDates.Time> {
    var parts := Split(token, ':');
    if |parts| != 3 then None
    else
      var hour, minute, second := TwoDigits(parts[0]), TwoDigits(parts[1]), TwoDigits(parts[2]);
      if hour.None? || minute.None? || second.None? then None
      else if hour.value > 23 || minute.value > 59 || second.value > 60 then None
      else Some(CookieDates.Time(hour.value, minute.value, second.value))
  }

  /** Three letters and no more, unlike the cookie parser, which reads a prefix. */
  function MonthOf(token: string): Option<nat> {
    if |token| != 3 then None else CookieDates.MonthNamed(ToLower(token))
  }

  function YearOf(token: string): Option<nat> {
    if !AllDigits(token) then None
    else if |token| == 2 then
      (if Decimal(token) >= 70 then Some(1900 + Decimal(token)) else Some(2000 + Decimal(token)))
    else if |token| == 4 then Some(Decimal(token))
    else None
  }

  predicate DashOrBlank(c: char) {
    c == '-' || c == ' ' || c == '\t'
  }

  predicate Blank(c: char) {
    c == ' ' || c == '\t'
  }

  datatype Fields = Fields(day: string, month: string, year: string, time: string)

  /** One comma tells the weekday-first formats from `asctime`. */
  function FieldsOf(input: string): Option<Fields> {
    match Find(input, ',')
    case Some(comma) =>
      if Trim(input[..comma]) == "" then None
      else
        var f := NonEmpty(SplitBy(input[comma + 1..], DashOrBlank));
        if |f| < 4 then None else Some(Fields(f[0], f[1], f[2], f[3]))
    case None =>
      var f := NonEmpty(SplitBy(input, Blank));
      if |f| < 5 then None else Some(Fields(f[2], f[1], f[4], f[3]))
  }

  function HttpDate(raw: string): Option<int> {
    match FieldsOf(Trim(raw))
    case None => None
    case Some(f) =>
      var day, month, year, time := TwoDigits(f.day), MonthOf(f.month), YearOf(f.year), TimeOf(f.time);
      if day.None? || month.None? || year.None? || time.None? then None
      else if day.value == 0 || day.value > 31 || year.value < 1601 then None
      else Some(CookieDates.SecondsAt(year.value, month.value, day.value, time.value))
  }
}
