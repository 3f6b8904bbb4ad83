/** Civil-date arithmetic, shared in form by the cookie and cache date parsers. */
module CivilDates {
  import opened Arithmetic

  /** Division truncated toward zero, as Rust divides. */
  function TruncDiv(a: int, b: int): int
    requires b > 0
  {
    if a >= 0 then a / b else -((-a) / b)
  }

  /** The number of a Gregorian date, any year, counted from 1970-01-01. */
  function DaysFromCivil(year: int, month: nat, day: nat): int {
    var y := if month <= 2 then year - 1 else year;
    var era := TruncDiv(if y >= 0 then y else y - 399, 400);
    var yoe := y - era * 400;
    var mp := (month + 9) % 12;
    var doy := TruncDiv(153 * mp + 2, 5) + day - 1;
    var doe := yoe * 365 + TruncDiv(yoe, 4) - TruncDiv(yoe, 100) + doy;
    era * 146_097 + doe - 719_468
  }

  // ----- The calendar -----

  predicate IsLeap(y: int) {
    y % 4 == 0 && (y % 100 != 0 || y % 400 == 0)
  }

  function DaysInMonth(y: int, m: nat): nat
    requires 1 <= m <= 12
  {
    if m == 2 then (if IsLeap(y) then 29 else 28)
    else if m == 4 || m == 6 || m == 9 || m == 11 then 30
    else 31
  }

  datatype Date = Date(year: int, month: nat, day: nat)

  predicate ValidDate(d: Date) {
    1 <= d.month <= 12 && 1 <= d.day <= DaysInMonth(d.year, d.month)
  }

  function Tomorrow(d: Date): (r: Date)
    requires ValidDate(d)
    ensures ValidDate(r)
  {
    if d.day < DaysInMonth(d.year, d.month) then d.(day := d.day + 1)
    else if d.month < 12 then Date(d.year, d.month + 1, 1)
    else Date(d.year + 1, 1, 1)
  }

  function Days(d: Date): int {
    DaysFromCivil(d.year, d.month, d.day)
  }

  lemma EpochIsDayZero()
    ensures Days(Date(1970, 1, 1)) == 0
  {
  }

  /** The era is floored division, whatever the sign of the year. */
  lemma EraIsFloor(y: int)
    ensures TruncDiv(if y >= 0 then y else y - 399, 400) == y / 400
  {
  }

  /** Days before March 1st of year `y`, up to a constant. */
  function BeforeMarch(y: int): int {
    (y / 400) * 146_097 + (y % 400) * 365 + (y % 400) / 4 - (y % 400) / 100
  }

  /** The March year a date belongs to. */
  function MarchYear(d: Date): int {
    if d.month <= 2 then d.year - 1 else d.year
  }

  /** Days from March 1st to the first of month `m`. */
  function MonthOffset(m: nat): int {
    (153 * ((m + 9) % 12) + 2) / 5
  }

  lemma MonthOffsets(y: int, m: nat)
    requires 1 <= m < 12 && m != 2
    ensures MonthOffset(m + 1) == MonthOffset(m) + DaysInMonth(y, m)
    ensures MonthOffset(1) == MonthOffset(12) + 31
    ensures MonthOffset(3) == 0 && MonthOffset(2) == 337
  {
    if m == 1 { assert MonthOffset(2) == 337; }
    else if m == 3 { assert MonthOffset(4) == 31; }
    else if m == 4 { assert MonthOffset(5) == 61; }
    else if m == 5 { assert MonthOffset(6) == 92; }
    else if m == 6 { assert MonthOffset(7) == 122; }
    else if m == 7 { assert MonthOffset(8) == 153; }
    else if m == 8 { assert MonthOffset(9) == 184; }
    else if m == 9 { assert MonthOffset(10) == 214; }
    else if m == 10 { assert MonthOffset(11) == 245; }
    else { assert MonthOffset(12) == 275; }
  }

  /** The count split into whole March years, whole months and days. */
  lemma DaysSplit(d: Date)
    requires 1 <= d.month <= 12
    ensures Days(d) == BeforeMarch(MarchYear(d)) + MonthOffset(d.month) + d.day - 1 - 719_468
  {
    EraIsFloor(MarchYear(d));
  }

  lemma FourYearStep(r: nat)
    ensures (r + 1) / 4 - r / 4 == if (r + 1) % 4 == 0 then 1 else 0
  {
  }

  lemma HundredYearStep(r: nat)
    ensures (r + 1) / 100 - r / 100 == if (r + 1) % 100 == 0 then 1 else 0
  {
  }

  lemma EraParts(e: int, r: nat)
    requires r < 400
    ensures (400 * e + r) / 400 == e && (400 * e + r) % 400 == r
  {
    QuotientAndRemainder(400 * e + r, 400, e, r);
  }

  lemma LeapRepeats(e: int, r: nat)
    ensures IsLeap(400 * e + r) == IsLeap(r)
  {
    ModuloDropsMultiples(r, 100 * e, 4);
    ModuloDropsMultiples(r, 4 * e, 100);
    ModuloDropsMultiples(r, e, 400);
  }

  lemma BeforeMarchAt(e: int, r: nat)
    requires r < 400
    ensures BeforeMarch(400 * e + r) == e * 146_097 + r * 365 + r / 4 - r / 100
  {
    EraParts(e, r);
  }

  lemma YearStep(r: nat)
    requires r < 399
    ensures (r + 1) / 4 - (r + 1) / 100 == r / 4 - r / 100 + if IsLeap(r + 1) then 1 else 0
  {
    FourYearStep(r);
    HundredYearStep(r);
  }

  /** A March year is 366 days long exactly when the February ending it has 29. */
  lemma MarchYearLength(y: int)
    ensures BeforeMarch(y + 1) - BeforeMarch(y) == if IsLeap(y + 1) then 366 else 365
  {
    var e, r := y / 400, y % 400;
    assert y == 400 * e + r;
    BeforeMarchAt(e, r);
    if r == 399 {
      assert y + 1 == 400 * (e + 1) + 0;
      BeforeMarchAt(e + 1, 0);
      LeapRepeats(e + 1, 0);
    } else {
      BeforeMarchAt(e, r + 1);
      LeapRepeats(e, r + 1);
      YearStep(r);
    }
  }

  lemma FirstOfMarch(year: int, day: nat)
    requires day == DaysInMonth(year, 2)
    ensures Days(Date(year, 3, 1)) == Days(Date(year, 2, day)) + 1
  {
    DaysSplit(Date(year, 2, day));
    DaysSplit(Date(year, 3, 1));
    MarchYearLength(year - 1);
    MonthOffsets(year, 1);
  }

  lemma FirstOfAnotherMonth(year: int, month: nat)
    requires 1 <= month < 12 && month != 2
    ensures Days(Date(year, month + 1, 1)) == Days(Date(year, month, DaysInMonth(year, month))) + 1
  {
    DaysSplit(Date(year, month, DaysInMonth(year, month)));
    DaysSplit(Date(year, month + 1, 1));
    MonthOffsets(year, month);
  }

  lemma FirstOfYear(year: int)
    ensures Days(Date(year + 1, 1, 1)) == Days(Date(year, 12, 31)) + 1
  {
    DaysSplit(Date(year, 12, 31));
    DaysSplit(Date(year + 1, 1, 1));
    MonthOffsets(year, 1);
  }

  /** The next valid date is exactly one day later, in every year. */
  lemma TomorrowIsOneDayLater(d: Date)
    requires ValidDate(d)
    ensures Days(Tomorrow(d)) == Days(d) + 1
  {
    if d.day < DaysInMonth(d.year, d.month) {
      DaysSplit(d);
      DaysSplit(Tomorrow(d));
    } else if d.month == 2 {
      FirstOfMarch(d.year, d.day);
    } else if d.month == 12 {
      FirstOfYear(d.year);
    } else {
      FirstOfAnotherMonth(d.year, d.month);
    }
  }

  // ----- Order -----

  predicate Earlier(a: Date, b: Date) {
    || a.year < b.year
    || (a.year == b.year && a.month < b.month)
    || (a.year == b.year && a.month == b.month && a.day < b.day)
  }

  /** Months and days left before `b`, as a measure for walking day by day. */
  lemma {:induction false} LaterDateIsLater(a: Date, b: Date)
    requires ValidDate(a) && ValidDate(b) && Earlier(a, b)
    ensures Days(a) < Days(b)
    decreases b.year - a.year, 12 - a.month, 31 - a.day
  {
    var t := Tomorrow(a);
    TomorrowIsOneDayLater(a);
    if t != b {
      LaterDateIsLater(t, b);
    }
  }

  /** Two valid dates share a day number only if they are the same date. */
  lemma DaysIsInjective(a: Date, b: Date)
    requires ValidDate(a) && ValidDate(b) && Days(a) == Days(b)
    ensures a == b
  {
    if Earlier(a, b) {
      LaterDateIsLater(a, b);
    } else if Earlier(b, a) {
      LaterDateIsLater(b, a);
    }
  }
}
