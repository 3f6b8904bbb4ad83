/** The lenient cookie-date parser of section 5.1.1 of RFC 6265.  Instants are seconds since 1970. */
module CookieDates {
  import opened Options
  import opened Text
  import opened CivilDates

  const U32_LIMIT: nat := 0xFFFF_FFFF

  const MONTHS: seq<string> :=
    ["jan", "feb", "mar", "apr", "may", "jun", "jul", "aug", "sep", "oct", "nov", "dec"]

  predicate IsDelimiter(c: char) {
    || c == '\t'
    || ' ' <= c <= '/'
    || ';' <= c <= '@'
    || '[' <= c <= '`'
    || '{' <= c <= '~'
  }

  function Tokens(s: string): seq<string> {
    NonEmpty(SplitBy(s, IsDelimiter))
  }

  /** How many digits `token` starts with. */
  function DigitRun(token: string): (n: nat)
    ensures n <= |token| && AllDigits(token[..n])
    ensures n < |token| ==> !IsDigit(token[n])
  {
    if token == [] || !IsDigit(token[0]) then 0
    else
      var n := DigitRun(token[1..]);
      assert token[..n + 1] == [token[0]] + token[1..][..n];
      n + 1
  }

  function LeadingDigits(token: string): Option<(nat, nat)> {
    var end := DigitRun(token);
    if end == 0 || Decimal(token[..end]) > U32_LIMIT then None
    else Some((Decimal(token[..end]), end))
  }

  datatype Time = Time(hour: nat, minute: nat, second: nat)

  predicate OneOrTwoDigits(s: string) {
    1 <= |s| <= 2 && AllDigits(s)
  }

  function TryTime(token: string): Option<Time> {
    match Find(token, ':')
    case None => None
    case Some(i) =>
      var hour, after := token[..i], token[i + 1..];
      match Find(after, ':')
      case None => None
      case Some(j) =>
        var minute, rest := after[..j], after[j + 1..];
        if !OneOrTwoDigits(hour) || !OneOrTwoDigits(minute) then None
        else
          match LeadingDigits(rest)
          case None => None
          case Some((second, len)) =>
            if len > 2 then None else Some(Time(Decimal(hour), Decimal(minute), second))
  }

  /** Which month, one-based, a lowercased abbreviation names. */
  function MonthNamed(prefix: string): (r: Option<nat>)
    ensures r.Some? ==> 1 <= r.value <= 12 && MONTHS[r.value - 1] == prefix
    ensures r.None? ==> prefix !in MONTHS
  {
    MonthFrom(prefix, 0)
  }

  function MonthFrom(prefix: string, k: nat): (r: Option<nat>)
    requires k <= 12
    ensures r.Some? ==> k < r.value <= 12 && MONTHS[r.value - 1] == prefix
    ensures r.None? ==> forall i :: k <= i < 12 ==> MONTHS[i] != prefix
    decreases 12 - k
  {
    if k == 12 then None
    else if MONTHS[k] == prefix then Some(k + 1)
    else MonthFrom(prefix, k + 1)
  }

  /** The four things the parser looks for, as found so far. */
  datatype Found = Found(time: Option<Time>, day: Option<nat>, month: Option<nat>, year: Option<nat>)

  const NOTHING: Found := Found(None, None, None, None)

  function MonthIn(token: string): Option<nat> {
    if |token| < 3 then None else MonthNamed(ToLower(token[..3]))
  }

  predicate DayIn(token: string) {
    LeadingDigits(token).Some? && LeadingDigits(token).value.1 <= 2
  }

  predicate YearIn(token: string) {
    LeadingDigits(token).Some? && (LeadingDigits(token).value.1 == 2 || LeadingDigits(token).value.1 == 4)
  }

  function Absorb(f: Found, token: string): Found {
    if f.time.None? && TryTime(token).Some? then f.(time := TryTime(token))
    else if f.day.None? && DayIn(token) then f.(day := Some(LeadingDigits(token).value.0))
    else if f.month.None? && MonthIn(token).Some? then f.(month := MonthIn(token))
    else if f.year.None? && YearIn(token) then f.(year := Some(LeadingDigits(token).value.0))
    else f
  }

  function AbsorbAll(f: Found, tokens: seq<string>): Found
    decreases |tokens|
  {
    if tokens == [] then f else AbsorbAll(Absorb(f, tokens[0]), tokens[1..])
  }

  function FullYear(year: nat): nat {
    if 70 <= year <= 99 then year + 1900
    else if year <= 69 then year + 2000
    else year
  }

  function SecondsAt(year: int, month: nat, day: nat, t: Time): int {
    DaysFromCivil(year, month, day) * 86_400 + t.hour * 3600 + t.minute * 60 + t.second
  }

  function Conclude(f: Found): Option<int> {
    if f.time.None? || f.day.None? || f.month.None? || f.year.None? then None
    else
      var t, day, year := f.time.value, f.day.value, FullYear(f.year.value);
      if t.hour > 23 || t.minute > 59 || t.second > 60 || day == 0 || day > 31 then None
      else if year < 1601 then None
      else Some(SecondsAt(year, f.month.value, day, t))
  }

  function CookieDate(input: string): Option<int> {
    Conclude(AbsorbAll(NOTHING, Tokens(input)))
  }

  /** The parser's own loop over the tokens. */
  method ParseCookieDate(input: string) returns (r: Option<int>)
    ensures r == CookieDate(input)
  {
    var tokens := Tokens(input);
    var found := NOTHING;
    for i := 0 to |tokens|
      invariant AbsorbAll(found, tokens[i..]) == AbsorbAll(NOTHING, tokens)
    {
      var token := tokens[i];
      assert tokens[i..][0] == token && tokens[i..][1..] == tokens[i + 1..];
      if found.time.None? {
        var time := TryTime(token);
        if time.Some? {
          found := found.(time := time);
          continue;
        }
      }
      var digits := LeadingDigits(token);
      if found.day.None? && digits.Some? && digits.value.1 <= 2 {
        found := found.(day := Some(digits.value.0));
        continue;
      }
      if found.month.None? {
        var month := MonthIn(token);
        if month.Some? {
          found := found.(month := month);
          continue;
        }
      }
      if found.year.None? && digits.Some? && (digits.value.1 == 2 || digits.value.1 == 4) {
        found := found.(year := Some(digits.value.0));
      }
    }
    r := Conclude(found);
  }
}
