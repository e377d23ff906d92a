/**
 Calendar days the way JavaScript's Date counts them: the proleptic Gregorian
 calendar of section 21.4.1 of ECMA-262, and its YYYY-MM-DD texts.
 */
module Calendar {
  import opened Text

  datatype Date = Date(year: int, month: int, day: int)

  predicate IsLeap(year: int) {
    year % 4 == 0 && (year % 100 != 0 || year % 400 == 0)
  }

  function DaysInMonth(year: int, month: int): int {
    if month == 2 then (if IsLeap(year) then 29 else 28)
    else if month in {4, 6, 9, 11} then 30
    else 31
  }

  predicate Valid(d: Date) {
    1 <= d.month <= 12 && 1 <= d.day <= DaysInMonth(d.year, d.month)
  }

  /** Days from 1970-01-01 to the first of January. */
  function DayFromYear(year: int): int {
    365 * (year - 1970) + (year - 1969) / 4 - (year - 1901) / 100 + (year - 1601) / 400
  }

  function DaysBeforeMonth(year: int, month: int): int
    requires 1 <= month <= 13
  {
    if month == 1 then 0 else DaysBeforeMonth(year, month - 1) + DaysInMonth(year, month - 1)
  }

  function DayNumber(d: Date): int
    requires Valid(d)
  {
    DayFromYear(d.year) + DaysBeforeMonth(d.year, d.month) + d.day - 1
  }

  lemma MonthsFillTheYear(year: int)
    ensures DaysBeforeMonth(year, 13) == 337 + DaysInMonth(year, 2)
  {
    assert DaysBeforeMonth(year, 2) == 31;
    assert DaysBeforeMonth(year, 4) == 62 + DaysInMonth(year, 2);
    assert DaysBeforeMonth(year, 6) == DaysBeforeMonth(year, 4) + 61;
    assert DaysBeforeMonth(year, 8) == DaysBeforeMonth(year, 6) + 61;
    assert DaysBeforeMonth(year, 10) == DaysBeforeMonth(year, 8) + 61;
    assert DaysBeforeMonth(year, 12) == DaysBeforeMonth(year, 10) + 61;
  }

  /** The days before each month of a common year, as the standard tabulates them. */
  const DAYS_BEFORE_MONTH: seq<int> := [0, 31, 59, 90, 120, 151, 181, 212, 243, 273, 304, 334]

  /** The lengths of the months are those of that table, with the leap day in
      February of the years divisible by four but not by a hundred, or by four
      hundred. */
  lemma MonthsAreTheTable(year: int, month: int)
    requires 1 <= month <= 12
    ensures var leap := year % 4 == 0 && (year % 100 != 0 || year % 400 == 0);
            DaysBeforeMonth(year, month) == DAYS_BEFORE_MONTH[month - 1] + if leap && month > 2 then 1 else 0
  {
    assert DaysBeforeMonth(year, 2) == 31 && DaysBeforeMonth(year, 3) == 31 + DaysInMonth(year, 2);
    assert DaysBeforeMonth(year, 5) == DaysBeforeMonth(year, 3) + 61;
    assert DaysBeforeMonth(year, 7) == DaysBeforeMonth(year, 5) + 61;
    assert DaysBeforeMonth(year, 9) == DaysBeforeMonth(year, 7) + 62;
    assert DaysBeforeMonth(year, 11) == DaysBeforeMonth(year, 9) + 61;
    assert DaysBeforeMonth(year, 4) == DaysBeforeMonth(year, 3) + 31;
    assert DaysBeforeMonth(year, 6) == DaysBeforeMonth(year, 5) + 31;
    assert DaysBeforeMonth(year, 8) == DaysBeforeMonth(year, 7) + 31;
    assert DaysBeforeMonth(year, 10) == DaysBeforeMonth(year, 9) + 30;
    assert DaysBeforeMonth(year, 12) == DaysBeforeMonth(year, 11) + 30;
  }

  /** The first day of 1970 is day zero. */
  lemma EpochIsDayZero()
    ensures Valid(Date(1970, 1, 1)) && DayNumber(Date(1970, 1, 1)) == 0
  {
  }

  // Each quotient of DayFromYear steps up in the years its divisor divides.

  lemma FoursStep(year: int)
    ensures (year - 1968) / 4 == (year - 1969) / 4 + if year % 4 == 0 then 1 else 0
  {
  }

  lemma HundredsStep(year: int)
    ensures (year - 1900) / 100 == (year - 1901) / 100 + if year % 100 == 0 then 1 else 0
  {
  }

  lemma FourHundredsStep(year: int)
    ensures (year - 1600) / 400 == (year - 1601) / 400 + if year % 400 == 0 then 1 else 0
  {
  }

  /** A multiple of 400 is one of 100, and a multiple of 100 one of 4. */
  lemma Multiples(year: int)
    ensures year % 400 == 0 ==> year % 100 == 0
    ensures year % 100 == 0 ==> year % 4 == 0
  {
  }

  lemma YearLength(year: int)
    ensures DayFromYear(year + 1) == DayFromYear(year) + 337 + DaysInMonth(year, 2)
    ensures DayFromYear(year + 1) == DayFromYear(year) + DaysBeforeMonth(year, 13)
  {
    MonthsFillTheYear(year);
    FoursStep(year);
    HundredsStep(year);
    FourHundredsStep(year);
    Multiples(year);
  }

  lemma {:induction false} MonthsGrow(year: int, m: int, n: int)
    requires 1 <= m <= n <= 13
    ensures DaysBeforeMonth(year, m) + (n - m) <= DaysBeforeMonth(year, n)
    decreases n
  {
    if m < n {
      MonthsGrow(year, m, n - 1);
    }
  }

  lemma {:induction false} YearsGrow(y: int, z: int)
    requires y <= z
    ensures DayFromYear(y) + 365 * (z - y) <= DayFromYear(z)
    decreases z - y
  {
    if y < z {
      YearsGrow(y, z - 1);
      YearLength(z - 1);
    }
  }

  /** YearFromTime: the largest year that starts at or before the day. */
  function YearFrom(day: int, year: int): (y: int)
    requires DayFromYear(year) <= day
    ensures DayFromYear(y) <= day < DayFromYear(y + 1)
    decreases day - DayFromYear(year)
  {
    YearLength(year);
    if day < DayFromYear(year + 1) then year else YearFrom(day, year + 1)
  }

  /** A year that starts no later than the day, to search from. */
  function EarlyYear(day: int): (y: int)
    ensures DayFromYear(y) <= day
  {
    if day >= 0 then 1970 + day / 366 else 1970 + day / 365
  }

  function MonthFrom(year: int, offset: int, month: int): (m: int)
    requires 1 <= month <= 12
    requires DaysBeforeMonth(year, month) <= offset < DaysBeforeMonth(year, 13)
    ensures month <= m <= 12
    ensures DaysBeforeMonth(year, m) <= offset < DaysBeforeMonth(year, m + 1)
    decreases 12 - month
  {
    if offset < DaysBeforeMonth(year, month + 1) then month else MonthFrom(year, offset, month + 1)
  }

  function DateOf(day: int): (d: Date)
    ensures Valid(d) && DayNumber(d) == day
  {
    var year := YearFrom(day, EarlyYear(day));
    YearLength(year);
    var offset := day - DayFromYear(year);
    var month := MonthFrom(year, offset, 1);
    Date(year, month, offset - DaysBeforeMonth(year, month) + 1)
  }

  predicate Earlier(a: Date, b: Date) {
    || a.year < b.year
    || (a.year == b.year && (a.month < b.month || (a.month == b.month && a.day < b.day)))
  }

  /** Calendar order is day order. */
  lemma EarlierIsSmaller(a: Date, b: Date)
    requires Valid(a) && Valid(b)
    ensures Earlier(a, b) <==> DayNumber(a) < DayNumber(b)
    ensures DayNumber(a) == DayNumber(b) ==> a == b
  {
    if Earlier(a, b) {
      EarlierCountsLess(a, b);
    } else if Earlier(b, a) {
      EarlierCountsLess(b, a);
    }
  }

  lemma EarlierCountsLess(a: Date, b: Date)
    requires Valid(a) && Valid(b) && Earlier(a, b)
    ensures DayNumber(a) < DayNumber(b)
  {
    if a.year < b.year {
      YearLength(a.year);
      YearsGrow(a.year + 1, b.year);
      MonthsGrow(a.year, a.month + 1, 13);
      MonthsGrow(b.year, 1, b.month);
    } else if a.month < b.month {
      MonthsGrow(a.year, a.month + 1, b.month);
    }
  }

  /** Dates and day numbers stand one to one, leap years and all. */
  lemma DateOfIsInverse(d: Date)
    requires Valid(d)
    ensures DateOf(DayNumber(d)) == d
  {
    EarlierIsSmaller(DateOf(DayNumber(d)), d);
  }

  // ---------------------------------------------------------------------
  // addDays and daysBetween
  // ---------------------------------------------------------------------

  function AddDays(d: Date, days: int): (r: Date)
    requires Valid(d)
    ensures Valid(r)
  {
    DateOf(DayNumber(d) + days)
  }

  function DaysBetween(from: Date, to: Date): int
    requires Valid(from) && Valid(to)
  {
    DayNumber(to) - DayNumber(from)
  }

  lemma AddDaysMoves(d: Date, n: int)
    requires Valid(d)
    ensures DayNumber(AddDays(d, n)) == DayNumber(d) + n
  {
  }

  lemma SameDay(a: Date, b: Date)
    requires Valid(a) && Valid(b) && DayNumber(a) == DayNumber(b)
    ensures a == b
  {
    EarlierIsSmaller(a, b);
  }

  /** The two functions undo each other, across months and leap years. */
  lemma AddDaysUndoesDaysBetween(a: Date, b: Date, n: int)
    requires Valid(a) && Valid(b)
    ensures DaysBetween(a, AddDays(a, n)) == n
    ensures AddDays(a, DaysBetween(a, b)) == b
    ensures AddDays(AddDays(a, n), -n) == a
  {
    AddDaysMoves(a, n);
    AddDaysMoves(a, DaysBetween(a, b));
    SameDay(AddDays(a, DaysBetween(a, b)), b);
    AddDaysMoves(AddDays(a, n), -n);
    SameDay(AddDays(AddDays(a, n), -n), a);
  }

  /** The date after a date, as a calendar on paper has it. */
  function Tomorrow(d: Date): Date {
    if d.day < DaysInMonth(d.year, d.month) then d.(day := d.day + 1)
    else if d.month < 12 then Date(d.year, d.month + 1, 1)
    else Date(d.year + 1, 1, 1)
  }

  lemma TomorrowIsNext(d: Date)
    requires Valid(d)
    ensures Valid(Tomorrow(d)) && DayNumber(Tomorrow(d)) == DayNumber(d) + 1
  {
    YearLength(d.year);
  }

  lemma AddOneDay(d: Date)
    requires Valid(d)
    ensures AddDays(d, 1) == Tomorrow(d)
  {
    TomorrowIsNext(d);
    AddDaysMoves(d, 1);
    SameDay(AddDays(d, 1), Tomorrow(d));
  }

  // ---------------------------------------------------------------------
  // YYYY-MM-DD
  // ---------------------------------------------------------------------

  /** The years that have a four-digit text. */
  predicate Writable(d: Date) {
    Valid(d) && 0 <= d.year <= 9999
  }

  function Iso(d: Date): (s: string)
    requires Writable(d)
    ensures |s| == 10
  {
    Padded(d.year, 4) + ("-" + (Padded(d.month, 2) + ("-" + Padded(d.day, 2))))
  }

  lemma {:induction false} PaddedValue(n: nat, width: nat)
    requires n < PowerOfTen(width)
    ensures Value(Padded(n, width), 10) == n
    decreases width
  {
    if width > 0 {
      PaddedValue(n / 10, width - 1);
      assert Padded(n, width)[..width - 1] == Padded(n / 10, width - 1);
    }
  }

  /** The text is year, month and day in four, two and two digits, with hyphens
      between them. */
  lemma IsoSpellsTheDate(d: Date)
    requires Writable(d)
    ensures var s := Iso(d);
            && s[4] == '-' && s[7] == '-'
            && (forall i :: 0 <= i < 10 && i != 4 && i != 7 ==> IsDigit(s[i]))
            && Value(s[..4], 10) == d.year && Value(s[5..7], 10) == d.month && Value(s[8..], 10) == d.day
  {
    assert PowerOfTen(4) == 10_000 && PowerOfTen(2) == 100 by {
      assert PowerOfTen(1) == 10 && PowerOfTen(2) == 100 && PowerOfTen(3) == 1000;
    }
    PaddedValue(d.year, 4);
    PaddedValue(d.month, 2);
    PaddedValue(d.day, 2);
    hide Padded, Value;
    var s := Iso(d);
    assert s[..4] == Padded(d.year, 4);
    assert s[5..7] == Padded(d.month, 2);
    assert s[8..] == Padded(d.day, 2);
    forall i | 0 <= i < 10 && i != 4 && i != 7 ensures IsDigit(s[i]) {
      assert i < 4 ==> s[i] == Padded(d.year, 4)[i];
      assert 4 < i < 7 ==> s[i] == Padded(d.month, 2)[i - 5];
      assert 7 < i ==> s[i] == Padded(d.day, 2)[i - 8];
    }
  }

  lemma HyphenFirst(x: string, y: string)
    ensures StringLess("-" + x, "-" + y) <==> StringLess(x, y)
  {
    assert ("-" + x)[1..] == x && ("-" + y)[1..] == y;
  }

  /** Comparing the texts is comparing the dates: `from > product.minDate` on
      strings is the sign of daysBetween. */
  lemma IsoOrderIsDayOrder(a: Date, b: Date)
    requires Writable(a) && Writable(b)
    ensures StringLess(Iso(a), Iso(b)) <==> DaysBetween(a, b) > 0
  {
    assert PowerOfTen(4) == 10_000 && PowerOfTen(2) == 100 by {
      assert PowerOfTen(1) == 10 && PowerOfTen(2) == 100 && PowerOfTen(3) == 1000;
    }
    PaddedOrder(a.year, b.year, 4);
    PaddedOrder(a.month, b.month, 2);
    PaddedOrder(a.day, b.day, 2);
    var da, db := "-" + Padded(a.day, 2), "-" + Padded(b.day, 2);
    var ma, mb := Padded(a.month, 2) + da, Padded(b.month, 2) + db;
    StringLessConcat(Padded(a.year, 4), Padded(b.year, 4), "-" + ma, "-" + mb);
    HyphenFirst(ma, mb);
    StringLessConcat(Padded(a.month, 2), Padded(b.month, 2), da, db);
    HyphenFirst(Padded(a.day, 2), Padded(b.day, 2));
    EarlierIsSmaller(a, b);
  }
}
