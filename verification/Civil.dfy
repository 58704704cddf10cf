/** The civil-date arithmetic behind the real-time clock: the number of days
    from 1970-01-01 to a proleptic Gregorian date, checked against the calendar
    itself (month lengths, the leap-year rule and "the next day"). */
module Civil {

  datatype Date = Date(year: int, month: int, day: int)

  /** Integer division that truncates toward zero, as on `i64`. */
  function TruncDiv(a: int, b: int): int
    requires b > 0
  {
    if a >= 0 then a / b else -((-a) / b)
  }

  function DaysFromCivil(year: int, m: nat, d: nat): int
  {
    var y := if m <= 2 then year - 1 else year;
    var era := TruncDiv(if y >= 0 then y else y - 399, 400);
    var yoe := y - era * 400;
    var doy := TruncDiv(153 * (if m > 2 then m - 3 else m + 9) + 2, 5) + d - 1;
    var doe := yoe * 365 + TruncDiv(yoe, 4) - TruncDiv(yoe, 100) + doy;
    era * 146097 + doe - 719468
  }

  // The calendar

  predicate Leap(year: int) {
    year % 4 == 0 && (year % 100 != 0 || year % 400 == 0)
  }

  function DaysInMonth(year: int, month: int): (n: nat)
    ensures 28 <= n <= 31
  {
    if month == 2 then (if Leap(year) then 29 else 28)
    else if month in {4, 6, 9, 11} then 30
    else 31
  }

  predicate ValidDate(t: Date) {
    1 <= t.month <= 12 && 1 <= t.day <= DaysInMonth(t.year, t.month)
  }

  function NextDay(t: Date): (r: Date)
    requires ValidDate(t)
    ensures ValidDate(r)
  {
    if t.day < DaysInMonth(t.year, t.month) then t.(day := t.day + 1)
    else if t.month < 12 then Date(t.year, t.month + 1, 1)
    else Date(t.year + 1, 1, 1)
  }

  function PreviousDay(t: Date): (r: Date)
    requires ValidDate(t)
    ensures ValidDate(r) && NextDay(r) == t
  {
    if t.day > 1 then t.(day := t.day - 1)
    else if t.month > 1 then Date(t.year, t.month - 1, DaysInMonth(t.year, t.month - 1))
    else Date(t.year - 1, 12, 31)
  }

  predicate Earlier(a: Date, b: Date) {
    a.year < b.year
    || (a.year == b.year && (a.month < b.month || (a.month == b.month && a.day < b.day)))
  }

  function DayNumber(t: Date): int
    requires ValidDate(t)
  {
    DaysFromCivil(t.year, t.month, t.day)
  }

  /** Days from 0000-03-01 to 1 March of year y, by the leap-year rule. */
  function MarchFirst(y: int): int {
    365 * y + y / 4 - y / 100 + y / 400
  }

  /** Days from 1 March to the first of month m of the same March-based year. */
  function MonthStart(m: nat): int
    requires 1 <= m <= 12
  {
    (153 * (if m > 2 then m - 3 else m + 9) + 2) / 5
  }

  /** The era arithmetic is floor division: every year, negative ones included, starts where
      the leap-year rule says it does. */
  lemma EraIsFloor(year: int, m: nat, d: nat)
    requires 1 <= m <= 12 && 1 <= d
    ensures DaysFromCivil(year, m, d)
            == MarchFirst(if m <= 2 then year - 1 else year) + MonthStart(m) + d - 1 - 719468
  {
    var y := if m <= 2 then year - 1 else year;
    var era := y / 400;
    assert TruncDiv(if y >= 0 then y else y - 399, 400) == era;
    var yoe := y - era * 400;
    assert 0 <= yoe < 400;
    assert y / 4 == era * 100 + yoe / 4;
    assert y / 100 == era * 4 + yoe / 100;
  }

  /** For every valid date in any year the next calendar day is one more. */
  lemma NextDayIsOneMore(t: Date)
    requires ValidDate(t)
    ensures DayNumber(NextDay(t)) == DayNumber(t) + 1
  {
    hide DaysFromCivil, MarchFirst, Leap;
    EraIsFloor(t.year, t.month, t.day);
    var n := NextDay(t);
    EraIsFloor(n.year, n.month, n.day);
    LeapRule(t.year);
  }

  lemma LeapRule(y: int)
    ensures MarchFirst(y) - MarchFirst(y - 1) == if Leap(y) then 366 else 365
  {
    assert y / 4 - (y - 1) / 4 == if y % 4 == 0 then 1 else 0;
    assert y / 100 - (y - 1) / 100 == if y % 100 == 0 then 1 else 0;
    assert y / 400 - (y - 1) / 400 == if y % 400 == 0 then 1 else 0;
    if y % 400 == 0 { assert y % 100 == 0 && y % 4 == 0; }
    if y % 100 == 0 { assert y % 4 == 0; }
  }

  /** The first of March of a later year is at least 365 days a year away. */
  lemma {:induction false} YearsInOrder(y: int, z: int)
    requires y <= z
    ensures MarchFirst(y) + 365 * (z - y) <= MarchFirst(z)
    decreases z - y
  {
    if y < z {
      LeapRule(z);
      YearsInOrder(y, z - 1);
    }
  }

  /** Calendar order and day-number order are the same order, so the map is injective. */
  lemma OrderPreservedAndReflected(a: Date, b: Date)
    requires ValidDate(a) && ValidDate(b)
    ensures Earlier(a, b) <==> DayNumber(a) < DayNumber(b)
    ensures DayNumber(a) == DayNumber(b) ==> a == b
  {
    if Earlier(a, b) {
      EarlierIsLess(a, b);
    } else if Earlier(b, a) {
      EarlierIsLess(b, a);
    }
  }

  lemma EarlierIsLess(a: Date, b: Date)
    requires ValidDate(a) && ValidDate(b) && Earlier(a, b)
    ensures DayNumber(a) < DayNumber(b)
  {
    hide DaysFromCivil, MarchFirst, Leap;
    EraIsFloor(a.year, a.month, a.day);
    EraIsFloor(b.year, b.month, b.day);
    LeapRule(a.year);
    LeapRule(b.year);
    if a.year < b.year { YearsInOrder(a.year, b.year - 1); }
  }

  /** Every day number is the number of some valid date: with injectivity, dates and integers
      correspond one to one, counted from 1970-01-01. */
  lemma {:induction false} EveryDayHasADate(n: int) returns (t: Date)
    ensures ValidDate(t) && DayNumber(t) == n
    ensures DayNumber(Date(1970, 1, 1)) == 0
    decreases if n < 0 then -n else n
  {
    if n == 0 {
      t := Date(1970, 1, 1);
    } else if n > 0 {
      var p := EveryDayHasADate(n - 1);
      NextDayIsOneMore(p);
      t := NextDay(p);
    } else {
      var s := EveryDayHasADate(n + 1);
      t := PreviousDay(s);
      NextDayIsOneMore(t);
    }
  }
}
