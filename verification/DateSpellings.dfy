/** What both parsers read each of the three standard spellings of a date as. */
module DateSpellings {
  import opened Options
  import opened Text
  import opened CivilDates
  import opened CookieDates
  import opened HttpDates

  // ----- Spelling -----

  const MONTH_NAMES: seq<string> :=
    ["Jan", "Feb", "Mar", "Apr", "May", "Jun", "Jul", "Aug", "Sep", "Oct", "Nov", "Dec"]

  const SHORT_DAYS: seq<string> := ["Mon", "Tue", "Wed", "Thu", "Fri", "Sat", "Sun"]

  const LONG_DAYS: seq<string> :=
    ["Monday", "Tuesday", "Wednesday", "Thursday", "Friday", "Saturday", "Sunday"]

  function Two(n: nat): string
    requires n < 100
  {
    [Digit(n / 10), Digit(n % 10)]
  }

  function Four(n: nat): string
    requires n < 10_000
  {
    [Digit(n / 1000), Digit(n / 100 % 10), Digit(n / 10 % 10), Digit(n % 10)]
  }

  predicate ClockTime(t: Time) {
    t.hour <= 23 && t.minute <= 59 && t.second <= 60
  }

  function Clock(t: Time): string
    requires ClockTime(t)
  {
    Two(t.hour) + [':'] + (Two(t.minute) + [':'] + Two(t.second))
  }

  /** `Sun, 06 Nov 1994 08:49:37 GMT` */
  function ImfFixdate(weekday: nat, d: Date, t: Time): string
    requires weekday < 7 && ValidDate(d) && 0 <= d.year < 10_000 && ClockTime(t)
  {
    SHORT_DAYS[weekday] + [','] + ([' '] + (Two(d.day) + [' '] + (MONTH_NAMES[d.month - 1] + [' '] +
    (Four(d.year) + [' '] + (Clock(t) + [' '] + "GMT")))))
  }

  /** `Sunday, 06-Nov-94 08:49:37 GMT` */
  function Rfc850(weekday: nat, d: Date, t: Time): string
    requires weekday < 7 && ValidDate(d) && 0 <= d.year && ClockTime(t)
  {
    LONG_DAYS[weekday] + [','] + ([' '] + (Two(d.day) + ['-'] + (MONTH_NAMES[d.month - 1] + ['-'] +
    (Two(d.year % 100) + [' '] + (Clock(t) + [' '] + "GMT")))))
  }

  function DayInAsctime(day: nat): string
    requires day < 100
  {
    if day < 10 then [Digit(day)] else Two(day)
  }

  /** `Sun Nov  6 08:49:37 1994`, the day padded with a blank. */
  function Asctime(weekday: nat, d: Date, t: Time): string
    requires weekday < 7 && ValidDate(d) && 0 <= d.year < 10_000 && ClockTime(t)
  {
    SHORT_DAYS[weekday] + [' '] + (MONTH_NAMES[d.month - 1] + [' '] +
    ((if d.day < 10 then [' '] else []) + (DayInAsctime(d.day) + [' '] + (Clock(t) + [' '] + Four(d.year)))))
  }

  function Instant(d: Date, t: Time): int {
    SecondsAt(d.year, d.month, d.day, t)
  }

  /** Both parsers give up on anything before 1601. */
  function From1601(d: Date, t: Time): Option<int> {
    if d.year < 1601 then None else Some(Instant(d, t))
  }

  /** The year of 1970 to 2069 with the same last two digits. */
  function Windowed(d: Date): Date {
    d.(year := 1970 + (d.year - 1970) % 100)
  }

  // ----- Cutting a spelling into fields -----

  function FieldsBy(s: string, sep: char -> bool): seq<string> {
    NonEmpty(SplitBy(s, sep))
  }

  lemma FirstField(a: string, d: char, b: string, sep: char -> bool)
    requires a != "" && Free(a, sep) && sep(d)
    ensures FieldsBy(a + [d] + b, sep) == [a] + FieldsBy(b, sep)
  {
    SplitByFirst(a, d, b, sep);
    assert ([a] + SplitBy(b, sep))[1..] == SplitBy(b, sep);
  }

  lemma SkipSeparator(d: char, b: string, sep: char -> bool)
    requires sep(d)
    ensures FieldsBy([d] + b, sep) == FieldsBy(b, sep)
  {
    assert "" + [d] + b == [d] + b;
    SplitByFirst("", d, b, sep);
    assert ([""] + SplitBy(b, sep))[1..] == SplitBy(b, sep);
  }

  lemma LastField(a: string, sep: char -> bool)
    requires a != "" && Free(a, sep)
    ensures FieldsBy(a, sep) == [a]
  {
    SplitByOnly(a, sep);
    assert [a][1..] == [];
    assert NonEmpty([a]) == [a] + NonEmpty([]);
  }

  // ----- Words and numbers -----

  /** Letters only: neither a digit, nor a colon, nor any separator. */
  predicate IsWord(s: string) {
    |s| >= 3 && forall i :: 0 <= i < |s| ==> 'A' <= s[i] <= 'Z' || 'a' <= s[i] <= 'z'
  }

  lemma NamesAreWords()
    ensures forall i :: 0 <= i < 12 ==> IsWord(MONTH_NAMES[i]) && |MONTH_NAMES[i]| == 3
    ensures forall i :: 0 <= i < 7 ==> IsWord(SHORT_DAYS[i]) && |SHORT_DAYS[i]| == 3
    ensures forall i :: 0 <= i < 7 ==> IsWord(LONG_DAYS[i])
    ensures IsWord("GMT")
  {
  }

  lemma LowerOf(a: string, b: string)
    requires |a| == 3 && |b| == 3 && ToLowerChar(a[0]) == b[0] && ToLowerChar(a[1]) == b[1] && ToLowerChar(a[2]) == b[2]
    ensures ToLower(a) == b
  {
  }

  lemma MonthsAreApart(i: nat, j: nat)
    requires i < j < 12
    ensures CookieDates.MONTHS[i] != CookieDates.MONTHS[j]
  {
    var a, b := CookieDates.MONTHS[i], CookieDates.MONTHS[j];
    assert a[0] != b[0] || a[1] != b[1] || a[2] != b[2];
  }

  lemma MonthLowers(m: nat)
    requires 1 <= m <= 12
    ensures ToLower(MONTH_NAMES[m - 1]) == CookieDates.MONTHS[m - 1]
  {
    LowerOf(MONTH_NAMES[m - 1], CookieDates.MONTHS[m - 1]);
  }

  lemma MonthIsNamed(m: nat)
    requires 1 <= m <= 12
    ensures MonthNamed(ToLower(MONTH_NAMES[m - 1])) == Some(m)
  {
    MonthLowers(m);
    var found := MonthNamed(CookieDates.MONTHS[m - 1]);
    assert CookieDates.MONTHS[m - 1] in CookieDates.MONTHS;
    if found.value < m {
      MonthsAreApart(found.value - 1, m - 1);
    } else if m < found.value {
      MonthsAreApart(m - 1, found.value - 1);
    }
  }

  /** No weekday begins like a month. */
  lemma WeekdayIsNoMonth(w: nat)
    requires w < 7
    ensures MonthIn(SHORT_DAYS[w]) == None && MonthIn(LONG_DAYS[w]) == None
  {
    var s, l := SHORT_DAYS[w], LONG_DAYS[w];
    var lower := ["mon", "tue", "wed", "thu", "fri", "sat", "sun"][w];
    LowerOf(s[..3], lower);
    LowerOf(l[..3], lower);
    forall i | 0 <= i < 12 ensures CookieDates.MONTHS[i] != lower {
      var m := CookieDates.MONTHS[i];
      assert m[0] != lower[0] || m[1] != lower[1] || m[2] != lower[2];
    }
  }

  lemma WordIsNoNumber(s: string)
    requires IsWord(s)
    ensures TryTime(s) == None && LeadingDigits(s) == None
  {
    assert !IsDigit(s[0]);
  }

  lemma TwoIsItsNumber(n: nat)
    requires n < 100
    ensures AllDigits(Two(n)) && Decimal(Two(n)) == n
    ensures LeadingDigits(Two(n)) == Some((n, 2)) && TryTime(Two(n)) == None
  {
    var s := Two(n);
    assert s[..1] == [Digit(n / 10)];
    assert Decimal(s[..1]) == n / 10 by { assert s[..1][..0] == []; }
    AllDigitsRun(s);
  }

  lemma OneIsItsNumber(n: nat)
    requires n < 10
    ensures AllDigits([Digit(n)]) && Decimal([Digit(n)]) == n
    ensures LeadingDigits([Digit(n)]) == Some((n, 1)) && TryTime([Digit(n)]) == None
  {
    var s := [Digit(n)];
    assert s[..0] == [];
    AllDigitsRun(s);
  }

  lemma FourDigits(a: nat, b: nat, c: nat, d: nat)
    requires a < 10 && b < 10 && c < 10 && d < 10
    ensures Decimal([Digit(a), Digit(b), Digit(c), Digit(d)]) == 1000 * a + 100 * b + 10 * c + d
  {
    var s := [Digit(a), Digit(b), Digit(c), Digit(d)];
    var three, two, one := s[..3], s[..2], s[..1];
    assert three[..2] == two && two[..1] == one && one[..0] == [];
    assert Decimal(one) == a;
    assert Decimal(two) == 10 * a + b;
    assert Decimal(three) == 100 * a + 10 * b + c;
  }

  lemma FourIsItsNumber(n: nat)
    requires n < 10_000
    ensures AllDigits(Four(n)) && Decimal(Four(n)) == n
    ensures LeadingDigits(Four(n)) == Some((n, 4)) && TryTime(Four(n)) == None
  {
    FourDigits(n / 1000, n / 100 % 10, n / 10 % 10, n % 10);
    assert n / 10 == 10 * (n / 100) + n / 10 % 10 && n / 100 == 10 * (n / 1000) + n / 100 % 10;
    AllDigitsRun(Four(n));
  }

  lemma {:induction false} AllDigitsRun(s: string)
    requires AllDigits(s)
    ensures DigitRun(s) == |s| && s[..DigitRun(s)] == s
    decreases |s|
  {
    if s != [] { AllDigitsRun(s[1..]); }
  }

  lemma FindFirst(a: string, c: char, b: string)
    requires forall i :: 0 <= i < |a| ==> a[i] != c
    ensures Find(a + [c] + b, c) == Some(|a|)
    ensures (a + [c] + b)[..|a|] == a && (a + [c] + b)[|a| + 1..] == b
  {
    var s := a + [c] + b;
    assert s[|a|] == c;
    assert forall i :: 0 <= i < |a| ==> s[i] == a[i];
  }

  /** The clock is one token, read as its time by both parsers. */
  lemma ClockIsATime(t: Time)
    requires ClockTime(t)
    ensures TryTime(Clock(t)) == Some(t)
    ensures TimeOf(Clock(t)) == Some(t)
  {
    var h, m, s := Two(t.hour), Two(t.minute), Two(t.second);
    TwoIsItsNumber(t.hour);
    TwoIsItsNumber(t.minute);
    TwoIsItsNumber(t.second);
    FindFirst(h, ':', m + [':'] + s);
    FindFirst(m, ':', s);
    var sep := x => x == ':';
    SplitByFirst(h, ':', m + [':'] + s, sep);
    SplitByFirst(m, ':', s, sep);
    SplitByOnly(s, sep);
    assert Split(Clock(t), ':') == [h, m, s];
  }

  // ----- The cookie parser -----

  lemma WeekdayTeachesNothing(f: Found, w: string)
    requires IsWord(w) && (f.month.Some? || MonthIn(w) == None)
    ensures Absorb(f, w) == f
  {
    WordIsNoNumber(w);
  }

  lemma NameTeachesTheMonth(f: Found, name: string, m: nat)
    requires IsWord(name) && |name| == 3 && MonthNamed(ToLower(name)) == Some(m) && f.month.None?
    ensures Absorb(f, name) == f.(month := Some(m))
  {
    WordIsNoNumber(name);
    assert name[..3] == name;
  }

  lemma MonthTeachesTheMonth(f: Found, m: nat)
    requires 1 <= m <= 12 && f.month.None?
    ensures Absorb(f, MONTH_NAMES[m - 1]) == f.(month := Some(m))
  {
    NamesAreWords();
    MonthIsNamed(m);
    NameTeachesTheMonth(f, MONTH_NAMES[m - 1], m);
  }

  lemma AbsorbStep(f: Found, token: string, rest: seq<string>)
    ensures AbsorbAll(f, [token] + rest) == AbsorbAll(Absorb(f, token), rest)
  {
    assert ([token] + rest)[1..] == rest;
  }

  /** Weekday, day, month, and whatever follows. */
  lemma DayThenMonth(w: string, day: nat, m: nat, rest: seq<string>)
    requires IsWord(w) && MonthIn(w) == None && 1 <= day < 100 && 1 <= m <= 12
    ensures AbsorbAll(NOTHING, [w] + ([Two(day)] + ([MONTH_NAMES[m - 1]] + rest))) ==
            AbsorbAll(Found(None, Some(day), Some(m), None), rest)
  {
    var f1 := NOTHING.(day := Some(day));
    AbsorbStep(NOTHING, w, [Two(day)] + ([MONTH_NAMES[m - 1]] + rest));
    WeekdayTeachesNothing(NOTHING, w);
    AbsorbStep(NOTHING, Two(day), [MONTH_NAMES[m - 1]] + rest);
    TwoIsItsNumber(day);
    AbsorbStep(f1, MONTH_NAMES[m - 1], rest);
    MonthTeachesTheMonth(f1, m);
  }

  /** Year, clock, zone, the date being known. */
  lemma YearThenClock(f: Found, year: string, yearValue: nat, t: Time)
    requires f.time.None? && f.day.Some? && f.month.Some? && f.year.None? && ClockTime(t)
    requires LeadingDigits(year) == Some((yearValue, 2)) || LeadingDigits(year) == Some((yearValue, 4))
    requires TryTime(year) == None
    ensures AbsorbAll(f, [year] + ([Clock(t)] + ["GMT"])) == Found(Some(t), f.day, f.month, Some(yearValue))
  {
    var f3 := f.(year := Some(yearValue));
    var f4 := f3.(time := Some(t));
    AbsorbStep(f, year, [Clock(t)] + ["GMT"]);
    AbsorbStep(f3, Clock(t), ["GMT"]);
    ClockIsATime(t);
    AbsorbStep(f4, "GMT", []);
    assert ["GMT"] + [] == ["GMT"];
    NamesAreWords();
    WeekdayTeachesNothing(f4, "GMT");
  }

  /** Weekday, day, month, year, clock, zone. */
  lemma DayFirstTokens(w: string, day: nat, m: nat, year: string, yearValue: nat, t: Time)
    requires IsWord(w) && MonthIn(w) == None && 1 <= day < 100 && 1 <= m <= 12 && ClockTime(t)
    requires LeadingDigits(year) == Some((yearValue, 2)) || LeadingDigits(year) == Some((yearValue, 4))
    requires TryTime(year) == None
    ensures AbsorbAll(NOTHING, [w] + ([Two(day)] + ([MONTH_NAMES[m - 1]] + ([year] + ([Clock(t)] + ["GMT"]))))) ==
            Found(Some(t), Some(day), Some(m), Some(yearValue))
  {
    DayThenMonth(w, day, m, [year] + ([Clock(t)] + ["GMT"]));
    YearThenClock(Found(None, Some(day), Some(m), None), year, yearValue, t);
  }

  lemma MonthThenDay(w: string, day: nat, m: nat, rest: seq<string>)
    requires IsWord(w) && MonthIn(w) == None && 1 <= day < 100 && 1 <= m <= 12
    ensures AbsorbAll(NOTHING, [w] + ([MONTH_NAMES[m - 1]] + ([DayInAsctime(day)] + rest))) ==
            AbsorbAll(Found(None, Some(day), Some(m), None), rest)
  {
    var f1 := NOTHING.(month := Some(m));
    AbsorbStep(NOTHING, w, [MONTH_NAMES[m - 1]] + ([DayInAsctime(day)] + rest));
    WeekdayTeachesNothing(NOTHING, w);
    AbsorbStep(NOTHING, MONTH_NAMES[m - 1], [DayInAsctime(day)] + rest);
    MonthTeachesTheMonth(NOTHING, m);
    AbsorbStep(f1, DayInAsctime(day), rest);
    if day < 10 { OneIsItsNumber(day); } else { TwoIsItsNumber(day); }
  }

  /** Weekday, month, day, clock, year. */
  lemma MonthFirstTokens(w: string, day: nat, m: nat, year: nat, t: Time)
    requires IsWord(w) && MonthIn(w) == None && 1 <= day < 100 && 1 <= m <= 12 && year < 10_000 && ClockTime(t)
    ensures AbsorbAll(NOTHING, [w] + ([MONTH_NAMES[m - 1]] + ([DayInAsctime(day)] + ([Clock(t)] + [Four(year)])))) ==
            Found(Some(t), Some(day), Some(m), Some(year))
  {
    MonthThenDay(w, day, m, [Clock(t)] + [Four(year)]);
    ClockThenYear(Found(None, Some(day), Some(m), None), year, t);
  }

  lemma ClockThenYear(f: Found, year: nat, t: Time)
    requires f.time.None? && f.day.Some? && f.month.Some? && f.year.None? && year < 10_000 && ClockTime(t)
    ensures AbsorbAll(f, [Clock(t)] + [Four(year)]) == Found(Some(t), f.day, f.month, Some(year))
  {
    var f3 := f.(time := Some(t));
    AbsorbStep(f, Clock(t), [Four(year)]);
    ClockIsATime(t);
    AbsorbStep(f3, Four(year), []);
    assert [Four(year)] + [] == [Four(year)];
    FourIsItsNumber(year);
  }

  lemma PartsAreFree(t: Time, n: nat, sep: char -> bool)
    requires ClockTime(t) && n < 100
    requires forall c :: IsDigit(c) || c == ':' ==> !sep(c)
    ensures Free(Clock(t), sep) && Free(Two(n), sep) && Clock(t) != ""
  {
  }

  lemma WordIsFree(w: string, sep: char -> bool)
    requires IsWord(w) && forall c :: 'A' <= c <= 'Z' || 'a' <= c <= 'z' ==> !sep(c)
    ensures Free(w, sep) && w != ""
  {
  }

  lemma DayFirstFields(day: nat, c2: char, m: nat, c3: char, year: string, t: Time, sep: char -> bool)
    requires day < 100 && 1 <= m <= 12 && ClockTime(t) && year != "" && Free(year, sep)
    requires sep(c2) && sep(c3) && sep(' ')
    requires forall c :: IsDigit(c) || c == ':' || 'A' <= c <= 'Z' || 'a' <= c <= 'z' ==> !sep(c)
    ensures FieldsBy([' '] + (Two(day) + [c2] + (MONTH_NAMES[m - 1] + [c3] + (year + [' '] + (Clock(t) + [' '] + "GMT")))), sep) ==
            [Two(day)] + ([MONTH_NAMES[m - 1]] + ([year] + ([Clock(t)] + ["GMT"])))
  {
    NamesAreWords();
    WordIsFree(MONTH_NAMES[m - 1], sep);
    WordIsFree("GMT", sep);
    PartsAreFree(t, day, sep);
    SkipSeparator(' ', Two(day) + [c2] + (MONTH_NAMES[m - 1] + [c3] + (year + [' '] + (Clock(t) + [' '] + "GMT"))), sep);
    FirstField(Two(day), c2, MONTH_NAMES[m - 1] + [c3] + (year + [' '] + (Clock(t) + [' '] + "GMT")), sep);
    FirstField(MONTH_NAMES[m - 1], c3, year + [' '] + (Clock(t) + [' '] + "GMT"), sep);
    FirstField(year, ' ', Clock(t) + [' '] + "GMT", sep);
    FirstField(Clock(t), ' ', "GMT", sep);
    LastField("GMT", sep);
  }

  lemma MonthFirstFields(w: string, day: nat, m: nat, year: nat, t: Time, sep: char -> bool)
    requires IsWord(w) && day < 100 && 1 <= m <= 12 && ClockTime(t) && year < 10_000
    requires sep(' ')
    requires forall c :: IsDigit(c) || c == ':' || 'A' <= c <= 'Z' || 'a' <= c <= 'z' ==> !sep(c)
    ensures FieldsBy(w + [' '] + (MONTH_NAMES[m - 1] + [' '] +
                     ((if day < 10 then [' '] else []) + (DayInAsctime(day) + [' '] + (Clock(t) + [' '] + Four(year))))), sep) ==
            [w] + ([MONTH_NAMES[m - 1]] + ([DayInAsctime(day)] + ([Clock(t)] + [Four(year)])))
  {
    NamesAreWords();
    WordIsFree(MONTH_NAMES[m - 1], sep);
    WordIsFree(w, sep);
    PartsAreFree(t, day, sep);
    var tail := DayInAsctime(day) + [' '] + (Clock(t) + [' '] + Four(year));
    var padded := (if day < 10 then [' '] else []) + tail;
    FirstField(w, ' ', MONTH_NAMES[m - 1] + [' '] + padded, sep);
    FirstField(MONTH_NAMES[m - 1], ' ', padded, sep);
    if day < 10 {
      SkipSeparator(' ', tail, sep);
    } else {
      assert padded == tail;
    }
    FirstField(DayInAsctime(day), ' ', Clock(t) + [' '] + Four(year), sep);
    FirstField(Clock(t), ' ', Four(year), sep);
    LastField(Four(year), sep);
  }

  lemma ConcludesAt(d: Date, t: Time, year: nat)
    requires 1 <= d.month <= 12 && 1 <= d.day <= 31 && ClockTime(t) && FullYear(year) == d.year
    ensures Conclude(Found(Some(t), Some(d.day), Some(d.month), Some(year))) == From1601(d, t)
  {
  }

  lemma DayFirstSpelling(word: string, day: nat, c: char, m: nat, year: string, yearValue: nat, t: Time)
    requires IsWord(word) && MonthIn(word) == None && 1 <= day < 100 && 1 <= m <= 12 && ClockTime(t)
    requires IsDelimiter(c) && year != "" && AllDigits(year) && TryTime(year) == None
    requires LeadingDigits(year) == Some((yearValue, 2)) || LeadingDigits(year) == Some((yearValue, 4))
    ensures AbsorbAll(NOTHING, Tokens(word + [','] + ([' '] + (Two(day) + [c] + (MONTH_NAMES[m - 1] + [c] +
            (year + [' '] + (Clock(t) + [' '] + "GMT"))))))) ==
            Found(Some(t), Some(day), Some(m), Some(yearValue))
  {
    WordIsFree(word, IsDelimiter);
    FirstField(word, ',', [' '] + (Two(day) + [c] + (MONTH_NAMES[m - 1] + [c] +
               (year + [' '] + (Clock(t) + [' '] + "GMT")))), IsDelimiter);
    DayFirstFields(day, c, m, c, year, t, IsDelimiter);
    DayFirstTokens(word, day, m, year, yearValue, t);
  }

  lemma CookieReadsImf(w: nat, d: Date, t: Time, when: Date)
    requires w < 7 && ValidDate(d) && 0 <= d.year < 10_000 && ClockTime(t) && when == d.(year := FullYear(d.year))
    ensures CookieDate(ImfFixdate(w, d, t)) == From1601(when, t)
  {
    NamesAreWords();
    WeekdayIsNoMonth(w);
    FourIsItsNumber(d.year);
    DayFirstSpelling(SHORT_DAYS[w], d.day, ' ', d.month, Four(d.year), d.year, t);
    ConcludesAt(when, t, d.year);
  }

  lemma LastTwoDigits(year: nat)
    ensures (1970 + (year - 1970) % 100) % 100 == year % 100
  {
    var k := (year - 1970) / 100;
    assert year == 1970 + (year - 1970) % 100 + 100 * k;
  }

  /** Both parsers expand two digits into the window from 1970. */
  lemma TwoDigitYear(year: nat)
    ensures FullYear(year % 100) == 1970 + (year - 1970) % 100
    ensures YearOf(Two(year % 100)) == Some(1970 + (year - 1970) % 100)
  {
    TwoIsItsNumber(year % 100);
    LastTwoDigits(year);
    var full := 1970 + (year - 1970) % 100;
    assert if full < 2000 then full == 1900 + full % 100 else full == 2000 + full % 100;
  }

  lemma CookieReadsRfc850(w: nat, d: Date, t: Time, when: Date)
    requires w < 7 && ValidDate(d) && 0 <= d.year && ClockTime(t) && when == d.(year := FullYear(d.year % 100))
    ensures CookieDate(Rfc850(w, d, t)) == From1601(when, t)
  {
    NamesAreWords();
    WeekdayIsNoMonth(w);
    TwoIsItsNumber(d.year % 100);
    DayFirstSpelling(LONG_DAYS[w], d.day, '-', d.month, Two(d.year % 100), d.year % 100, t);
    ConcludesAt(when, t, d.year % 100);
  }

  lemma MonthFirstSpelling(word: string, day: nat, m: nat, year: nat, t: Time)
    requires IsWord(word) && MonthIn(word) == None && 1 <= day < 100 && 1 <= m <= 12 && ClockTime(t) && year < 10_000
    ensures AbsorbAll(NOTHING, Tokens(word + [' '] + (MONTH_NAMES[m - 1] + [' '] +
            ((if day < 10 then [' '] else []) + (DayInAsctime(day) + [' '] + (Clock(t) + [' '] + Four(year))))))) ==
            Found(Some(t), Some(day), Some(m), Some(year))
  {
    MonthFirstFields(word, day, m, year, t, IsDelimiter);
    MonthFirstTokens(word, day, m, year, t);
  }

  lemma CookieReadsAsctime(w: nat, d: Date, t: Time, when: Date)
    requires w < 7 && ValidDate(d) && 0 <= d.year < 10_000 && ClockTime(t) && when == d.(year := FullYear(d.year))
    ensures CookieDate(Asctime(w, d, t)) == From1601(when, t)
  {
    NamesAreWords();
    WeekdayIsNoMonth(w);
    MonthFirstSpelling(SHORT_DAYS[w], d.day, d.month, d.year, t);
    ConcludesAt(when, t, d.year);
  }

  // ----- The cache's parser -----

  lemma TrimNothing(s: string)
    requires s != "" && !IsWhite(s[0]) && !IsWhite(s[|s| - 1])
    ensures Trim(s) == s
  {
  }

  lemma HttpFields(s: string, f: Fields, d: Date, t: Time)
    requires 1 <= d.month <= 12 && 1 <= d.day <= 31 && ClockTime(t) && 0 <= d.year
    requires Trim(s) == s && FieldsOf(s) == Some(f)
    requires TwoDigits(f.day) == Some(d.day) && f.month == MONTH_NAMES[d.month - 1]
    requires YearOf(f.year) == Some(d.year) && f.time == Clock(t)
    ensures HttpDate(s) == From1601(d, t)
  {
    NamesAreWords();
    MonthIsNamed(d.month);
    ClockIsATime(t);
  }

  /** What follows the comma is cut at its blanks and dashes. */
  lemma CommaFields(word: string, rest: string, f: seq<string>)
    requires IsWord(word) && |rest| > 0 && rest[|rest| - 1] == 'T'
    requires FieldsBy(rest, DashOrBlank) == f && |f| >= 4
    ensures var s := word + [','] + rest;
            Trim(s) == s && FieldsOf(s) == Some(Fields(f[0], f[1], f[2], f[3]))
  {
    var s := word + [','] + rest;
    assert s[0] == word[0] && s[|s| - 1] == 'T';
    TrimNothing(s);
    TrimNothing(word);
    FindFirst(word, ',', rest);
  }

  lemma EndsInZone(a: string, b: string)
    ensures var s := a + (b + [' '] + "GMT"); |s| > 0 && s[|s| - 1] == 'T'
  {
  }

  /** Either comma spelling: the fields are the day, the month, the year and the clock. */
  lemma DayFirstHttp(word: string, day: nat, c: char, m: nat, year: string, t: Time)
    requires IsWord(word) && day < 100 && DashOrBlank(c) && 1 <= m <= 12 && ClockTime(t)
    requires year != "" && AllDigits(year)
    ensures var s := word + [','] + ([' '] + (Two(day) + [c] + (MONTH_NAMES[m - 1] + [c] +
                     (year + [' '] + (Clock(t) + [' '] + "GMT")))));
            Trim(s) == s && FieldsOf(s) == Some(Fields(Two(day), MONTH_NAMES[m - 1], year, Clock(t)))
  {
    var zone := Clock(t) + [' '] + "GMT";
    var rest := [' '] + (Two(day) + [c] + (MONTH_NAMES[m - 1] + [c] + (year + [' '] + zone)));
    var before := [' '] + (Two(day) + [c] + (MONTH_NAMES[m - 1] + [c] + (year + [' '])));
    assert rest == before + zone;
    EndsInZone(before, Clock(t));
    DayFirstFields(day, c, m, c, year, t, DashOrBlank);
    CommaFields(word, rest, [Two(day)] + ([MONTH_NAMES[m - 1]] + ([year] + ([Clock(t)] + ["GMT"]))));
  }

  lemma HttpReadsImf(w: nat, d: Date, t: Time)
    requires w < 7 && ValidDate(d) && 0 <= d.year < 10_000 && ClockTime(t)
    ensures HttpDate(ImfFixdate(w, d, t)) == From1601(d, t)
  {
    NamesAreWords();
    FourIsItsNumber(d.year);
    TwoIsItsNumber(d.day);
    DayFirstHttp(SHORT_DAYS[w], d.day, ' ', d.month, Four(d.year), t);
    HttpFields(ImfFixdate(w, d, t), Fields(Two(d.day), MONTH_NAMES[d.month - 1], Four(d.year), Clock(t)), d, t);
  }

  lemma HttpReadsRfc850(w: nat, d: Date, t: Time, when: Date)
    requires w < 7 && ValidDate(d) && 0 <= d.year && ClockTime(t)
    requires 0 <= when.year && when == d.(year := when.year) && YearOf(Two(d.year % 100)) == Some(when.year)
    ensures HttpDate(Rfc850(w, d, t)) == From1601(when, t)
  {
    NamesAreWords();
    TwoIsItsNumber(d.day);
    TwoIsItsNumber(d.year % 100);
    DayFirstHttp(LONG_DAYS[w], d.day, '-', d.month, Two(d.year % 100), t);
    HttpFields(Rfc850(w, d, t), Fields(Two(d.day), MONTH_NAMES[d.month - 1], Two(d.year % 100), Clock(t)), when, t);
  }

  lemma HttpReadsAsctime(w: nat, d: Date, t: Time)
    requires w < 7 && ValidDate(d) && 0 <= d.year < 10_000 && ClockTime(t)
    ensures HttpDate(Asctime(w, d, t)) == From1601(d, t)
  {
    NamesAreWords();
    var s, word := Asctime(w, d, t), SHORT_DAYS[w];
    assert s[|s| - 1] == Four(d.year)[3];
    TrimNothing(s);
    AsctimeHasNoComma(w, d, t);
    FourIsItsNumber(d.year);
    if d.day < 10 { OneIsItsNumber(d.day); } else { TwoIsItsNumber(d.day); }
    MonthFirstFields(word, d.day, d.month, d.year, t, Blank);
    HttpFields(s, Fields(DayInAsctime(d.day), MONTH_NAMES[d.month - 1], Four(d.year), Clock(t)), d, t);
  }

  lemma AsctimeHasNoComma(w: nat, d: Date, t: Time)
    requires w < 7 && ValidDate(d) && 0 <= d.year < 10_000 && ClockTime(t)
    ensures Find(Asctime(w, d, t), ',') == None
  {
    NamesAreWords();
    var s := Asctime(w, d, t);
    assert forall i :: 0 <= i < |s| ==> s[i] != ',';
  }

  // ----- Every date -----

  /**
   Every valid date and time a four-digit year can write, leap seconds included, whatever weekday is
   written.  From 1601 on, both parsers read both four-digit spellings as the instant they name.
   Before that the cache's parser refuses, and so does the cookie parser, except that it takes a year
   below 100 for a two-digit one.
   */
  lemma FourDigitYearsAreExact(w: nat, d: Date, t: Time)
    requires w < 7 && ValidDate(d) && 0 <= d.year < 10_000 && ClockTime(t)
    ensures HttpDate(ImfFixdate(w, d, t)) == HttpDate(Asctime(w, d, t)) == From1601(d, t)
    ensures CookieDate(ImfFixdate(w, d, t)) == CookieDate(Asctime(w, d, t)) ==
            From1601(if d.year < 100 then Windowed(d) else d, t)
  {
    var when := if d.year < 100 then Windowed(d) else d;
    if d.year < 100 { TwoDigitYear(d.year); }
    CookieReadsImf(w, d, t, when);
    CookieReadsAsctime(w, d, t, when);
    HttpReadsImf(w, d, t);
    HttpReadsAsctime(w, d, t);
  }

  lemma InstantIsInjective(a: Date, b: Date, t: Time)
    requires ValidDate(a) && ValidDate(b)
    ensures Instant(a, t) == Instant(b, t) <==> a == b
  {
    if Instant(a, t) == Instant(b, t) {
      DaysIsInjective(a, b);
    }
  }

  lemma FourDivides(year: int, k: int)
    ensures (year + 4 * k) % 4 == year % 4
  {
  }

  /** The window keeps leap years leap: 100 is a multiple of 4, and its one century year is 2000. */
  lemma WindowedIsValid(d: Date)
    requires ValidDate(d) && 0 <= d.year
    ensures ValidDate(Windowed(d))
  {
    var year, k := Windowed(d).year, (d.year - 1970) / 100;
    assert d.year == year + 4 * (25 * k);
    FourDivides(year, 25 * k);
    assert 1970 <= year <= 2069;
    assert IsLeap(d.year) ==> IsLeap(year);
  }

  lemma WindowedIsSameIff(d: Date)
    ensures Windowed(d) == d <==> 1970 <= d.year <= 2069
  {
  }

  lemma TwoDigitYearsAreWindowed(w: nat, d: Date, t: Time, when: Date)
    requires w < 7 && ValidDate(d) && 0 <= d.year && ClockTime(t) && when == Windowed(d)
    ensures CookieDate(Rfc850(w, d, t)) == HttpDate(Rfc850(w, d, t)) == Some(Instant(when, t))
  {
    TwoDigitYear(d.year);
    CookieReadsRfc850(w, d, t, when);
    HttpReadsRfc850(w, d, t, when);
  }

  /** Both parsers read a two-digit year into 1970 to 2069; that names the instant exactly for dates of those years. */
  lemma TwoDigitYearsAreExactIff(w: nat, d: Date, t: Time)
    requires w < 7 && ValidDate(d) && 0 <= d.year && ClockTime(t)
    ensures CookieDate(Rfc850(w, d, t)) == HttpDate(Rfc850(w, d, t)) == Some(Instant(Windowed(d), t))
    ensures HttpDate(Rfc850(w, d, t)) == Some(Instant(d, t)) <==> 1970 <= d.year <= 2069
  {
    TwoDigitYearsAreWindowed(w, d, t, Windowed(d));
    WindowedIsValid(d);
    InstantIsInjective(Windowed(d), d, t);
    WindowedIsSameIff(d);
  }

  /** So for 1970 to 2069 the three spellings and the two parsers all agree. */
  lemma EverySpellingNamesTheInstant(w: nat, d: Date, t: Time)
    requires w < 7 && ValidDate(d) && 1970 <= d.year <= 2069 && ClockTime(t)
    ensures CookieDate(ImfFixdate(w, d, t)) == HttpDate(ImfFixdate(w, d, t)) == Some(Instant(d, t))
    ensures CookieDate(Rfc850(w, d, t)) == HttpDate(Rfc850(w, d, t)) == Some(Instant(d, t))
    ensures CookieDate(Asctime(w, d, t)) == HttpDate(Asctime(w, d, t)) == Some(Instant(d, t))
  {
    FourDigitYearsAreExact(w, d, t);
    TwoDigitYearsAreExactIff(w, d, t);
  }
}
