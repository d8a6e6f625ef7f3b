/**
 * Date validation by normalisation: a date is accepted when the calendar arithmetic of section
 * 21.4.1 of ECMA-262, which lets months and days overflow, gives it back unchanged.
 */
module CalendarDates {
  // ---------------------------------------------------------------- the calendar of ECMA-262

  predicate IsLeap(y: int) {
    y % 4 == 0 && (y % 100 != 0 || y % 400 == 0)
  }

  function DaysInYear(y: int): int {
    if IsLeap(y) then 366 else 365
  }

  /** The day number of the first day of a year, counted from 1 January 1970. */
  function DayFromYear(y: int): int {
    365 * (y - 1970) + (y - 1969) / 4 - (y - 1901) / 100 + (y - 1601) / 400
  }

  /** The day of the year on which a month starts, months counted from zero. */
  function MonthStart(m: int, leap: bool): int
    requires 0 <= m <= 12
  {
    var l := if leap then 1 else 0;
    if m == 0 then 0
    else if m == 1 then 31
    else [59, 90, 120, 151, 181, 212, 243, 273, 304, 334, 365][m - 2] + l
  }

  function DaysInMonth(y: int, m: int): int
    requires 0 <= m <= 11
  {
    MonthStart(m + 1, IsLeap(y)) - MonthStart(m, IsLeap(y))
  }

  /** Month and day overflow into years and months, as MakeDay prescribes. */
  function MakeDay(year: int, month: int, date: int): int {
    var ym, mn := year + month / 12, month % 12;
    DayFromYear(ym) + MonthStart(mn, IsLeap(ym)) + date - 1
  }

  /** A two-digit year means the twentieth century. */
  function UtcDay(year: int, month: int, date: int): int {
    MakeDay(if 0 <= year <= 99 then 1900 + year else year, month, date)
  }

  lemma TwelveMonthsOn(month: int)
    ensures (month + 12) / 12 == month / 12 + 1 && (month + 12) % 12 == month % 12
  {
  }

  /** Twelve months make a year, and days are counted on. */
  lemma MonthsOverflow(year: int, month: int, date: int)
    ensures MakeDay(year, month + 12, date) == MakeDay(year + 1, month, date)
    ensures MakeDay(year, month, date + 1) == MakeDay(year, month, date) + 1
  {
    var ym, mn := year + 1 + month / 12, month % 12;
    TwelveMonthsOn(month);
    assert MakeDay(year, month + 12, date) == DayFromYear(ym) + MonthStart(mn, IsLeap(ym)) + date - 1;
  }

  /** Days are counted from the first of 1970. */
  lemma DayZero()
    ensures DayFromYear(1970) == 0
  {
  }

  /** The years 0 to 99 mean 1900 to 1999. */
  lemma ShortYears(year: int, month: int, date: int)
    ensures UtcDay(year, month, date) == MakeDay(if year < 0 || year > 99 then year else year + 1900, month, date)
  {
  }

  lemma FourthStep(y: int)
    ensures (y - 1968) / 4 - (y - 1969) / 4 == if y % 4 == 0 then 1 else 0
  {
  }

  lemma CenturyStep(y: int)
    ensures (y - 1900) / 100 - (y - 1901) / 100 == if y % 100 == 0 then 1 else 0
  {
  }

  lemma FourCenturiesStep(y: int)
    ensures (y - 1600) / 400 - (y - 1601) / 400 == if y % 400 == 0 then 1 else 0
  {
  }

  lemma HundredDivides(z: int)
    ensures 100 * z % 100 == 0
  {
  }

  lemma FourDivides(z: int)
    ensures 4 * z % 4 == 0
  {
  }

  lemma LeapCases(y: int)
    ensures y % 400 == 0 ==> y % 100 == 0
    ensures y % 100 == 0 ==> y % 4 == 0
  {
    HundredDivides(4 * (y / 400));
    FourDivides(25 * (y / 100));
  }

  lemma YearLength(y: int)
    ensures DayFromYear(y + 1) == DayFromYear(y) + DaysInYear(y)
    ensures 365 <= DaysInYear(y) <= 366
  {
    FourthStep(y);
    CenturyStep(y);
    FourCenturiesStep(y);
    LeapCases(y);
  }

  lemma {:induction false} YearsIncrease(y: int, z: int)
    requires y <= z
    ensures DayFromYear(y) + (z - y) <= DayFromYear(z)
    decreases z - y
  {
    if y >= z {
    } else {
      YearsIncrease(y, z - 1);
      YearLength(z - 1);
    }
  }

  /** How far a guess is from the year containing a day, in days. */
  function Distance(n: int, guess: int): int {
    if n < DayFromYear(guess) then DayFromYear(guess) - n
    else if n >= DayFromYear(guess + 1) then n - DayFromYear(guess + 1) + 1
    else 0
  }

  lemma NeighbourIsCloser(n: int, guess: int)
    ensures n < DayFromYear(guess) ==> Distance(n, guess - 1) < Distance(n, guess)
    ensures n >= DayFromYear(guess + 1) ==> Distance(n, guess + 1) < Distance(n, guess)
  {
    YearLength(guess - 1);
    YearLength(guess);
    YearLength(guess + 1);
  }

  /** The year containing a day: the last one that starts no later. */
  function YearFromDay(n: int, guess: int): (y: int)
    ensures DayFromYear(y) <= n < DayFromYear(y + 1)
    decreases Distance(n, guess)
  {
    NeighbourIsCloser(n, guess);
    if n < DayFromYear(guess) then YearFromDay(n, guess - 1)
    else if n >= DayFromYear(guess + 1) then YearFromDay(n, guess + 1)
    else guess
  }

  lemma YearIsUnique(n: int, y: int, z: int)
    requires DayFromYear(y) <= n < DayFromYear(y + 1)
    requires DayFromYear(z) <= n < DayFromYear(z + 1)
    ensures y == z
  {
    if y < z {
      YearsIncrease(y + 1, z);
    } else if z < y {
      YearsIncrease(z + 1, y);
    }
  }

  /** The month containing a day of the year. */
  function MonthFromDay(d: int, leap: bool): (m: int)
    requires 0 <= d < MonthStart(12, leap)
    ensures 0 <= m <= 11 && MonthStart(m, leap) <= d < MonthStart(m + 1, leap)
  {
    if d < MonthStart(1, leap) then 0
    else if d < MonthStart(2, leap) then 1
    else if d < MonthStart(3, leap) then 2
    else if d < MonthStart(4, leap) then 3
    else if d < MonthStart(5, leap) then 4
    else if d < MonthStart(6, leap) then 5
    else if d < MonthStart(7, leap) then 6
    else if d < MonthStart(8, leap) then 7
    else if d < MonthStart(9, leap) then 8
    else if d < MonthStart(10, leap) then 9
    else if d < MonthStart(11, leap) then 10
    else 11
  }

  lemma {:induction false} MonthsIncrease(m: int, k: int, leap: bool)
    requires 0 <= m <= k <= 12
    ensures MonthStart(m, leap) <= MonthStart(k, leap)
    decreases k - m
  {
    if m >= k {
    } else {
      MonthsIncrease(m, k - 1, leap);
    }
  }

  lemma MonthIsUnique(d: int, leap: bool, m: int, k: int)
    requires 0 <= m <= 11 && MonthStart(m, leap) <= d < MonthStart(m + 1, leap)
    requires 0 <= k <= 11 && MonthStart(k, leap) <= d < MonthStart(k + 1, leap)
    ensures m == k
  {
    if m < k {
      MonthsIncrease(m + 1, k, leap);
    } else if k < m {
      MonthsIncrease(k + 1, m, leap);
    }
  }

  lemma YearEndsWithDecember(y: int)
    ensures MonthStart(12, IsLeap(y)) == DaysInYear(y)
  {
  }

  /** The day of its year that a day number falls on, counted from zero. */
  function DayWithinYear(n: int, y: int): (d: int)
    requires DayFromYear(y) <= n < DayFromYear(y + 1)
    ensures 0 <= d < MonthStart(12, IsLeap(y))
  {
    YearLength(y);
    YearEndsWithDecember(y);
    n - DayFromYear(y)
  }

  /** Year, month from zero, and day of the month. */
  datatype Date = Date(year: int, month: int, day: int)

  function DateFromDay(n: int): (date: Date)
    ensures 0 <= date.month <= 11 && 1 <= date.day <= DaysInMonth(date.year, date.month)
    ensures DayFromYear(date.year) <= n < DayFromYear(date.year + 1)
  {
    var y := YearFromDay(n, 1970);
    var d := DayWithinYear(n, y);
    var m := MonthFromDay(d, IsLeap(y));
    Date(y, m, d - MonthStart(m, IsLeap(y)) + 1)
  }

  /** Without overflow, MakeDay lands inside the year and the month it was given. */
  lemma InRangeMakeDay(y: int, m: int, d: int)
    requires 0 <= m <= 11 && 1 <= d <= DaysInMonth(y, m)
    ensures MakeDay(y, m, d) == DayFromYear(y) + MonthStart(m, IsLeap(y)) + d - 1
    ensures DayFromYear(y) <= MakeDay(y, m, d) < DayFromYear(y + 1)
  {
    assert m / 12 == 0 && m % 12 == m;
    YearLength(y);
    YearEndsWithDecember(y);
    MonthsIncrease(m + 1, 12, IsLeap(y));
    MonthsIncrease(0, m, IsLeap(y));
  }

  /** A date of the calendar survives being turned into a day number and back. */
  lemma DateRoundTrips(y: int, m: int, d: int)
    requires 0 <= m <= 11 && 1 <= d <= DaysInMonth(y, m)
    ensures DateFromDay(MakeDay(y, m, d)) == Date(y, m, d)
  {
    var n := MakeDay(y, m, d);
    InRangeMakeDay(y, m, d);
    YearIsUnique(n, y, YearFromDay(n, 1970));
    var within := DayWithinYear(n, y);
    MonthIsUnique(within, IsLeap(y), m, MonthFromDay(within, IsLeap(y)));
  }

  // ---------------------------------------------------------------- the validator

  predicate IsDigit(c: char) {
    '0' <= c <= '9'
  }

  function Number(digits: string): (n: nat)
    requires forall c :: c in digits ==> IsDigit(c)
  {
    if digits == "" then 0
    else
      var last := digits[|digits| - 1];
      assert IsDigit(last);
      10 * Number(digits[..|digits| - 1]) + (last as int - '0' as int)
  }

  /** Four digits, two digits and two digits, joined by hyphens. */
  predicate HasDateShape(value: string) {
    && |value| == 10
    && value[4] == '-' && value[7] == '-'
    && forall i :: 0 <= i < 10 && i != 4 && i != 7 ==> IsDigit(value[i])
  }

  lemma NumberGrows(digits: string)
    requires digits != "" && forall c :: c in digits ==> IsDigit(c)
    ensures Number(digits) <= 10 * Number(digits[..|digits| - 1]) + 9
  {
    assert IsDigit(digits[|digits| - 1]);
  }

  lemma NumberBound(digits: string)
    requires forall c :: c in digits ==> IsDigit(c)
    requires |digits| == 2 || |digits| == 4
    ensures Number(digits) < if |digits| == 2 then 100 else 10000
  {
    NumberGrows(digits);
    NumberGrows(digits[..|digits| - 1]);
    if |digits| == 4 {
      NumberGrows(digits[..3][..2]);
      NumberGrows(digits[..3][..2][..1]);
    }
  }

  /** Year, month from one, and day, as written. */
  function Fields(value: string): (f: Date)
    requires HasDateShape(value)
    ensures 0 <= f.year <= 9999 && 0 <= f.month <= 99 && 0 <= f.day <= 99
  {
    assert forall c :: c in value[..4] ==> IsDigit(c);
    assert forall c :: c in value[5..7] ==> IsDigit(c);
    assert forall c :: c in value[8..] ==> IsDigit(c);
    NumberBound(value[..4]);
    NumberBound(value[5..7]);
    NumberBound(value[8..]);
    Date(Number(value[..4]), Number(value[5..7]), Number(value[8..]))
  }

  predicate ValidDate(value: string) {
    HasDateShape(value) &&
    var f := Fields(value);
    var date := DateFromDay(UtcDay(f.year, f.month - 1, f.day));
    date.year == f.year && date.month == f.month - 1 && date.day == f.day
  }

  /** The real dates of the years the validator can represent. */
  predicate IsCalendarDate(f: Date) {
    100 <= f.year <= 9999 && 1 <= f.month <= 12 && 1 <= f.day <= DaysInMonth(f.year, f.month - 1)
  }

  /** A two-digit year is remapped so far away that the year never comes back. */
  lemma ShortYearNeverReturns(year: int, month: int, day: int)
    requires 0 <= year <= 99 && -1 <= month <= 98 && 0 <= day <= 99
    ensures DateFromDay(UtcDay(year, month, day)).year > 99
  {
    var ym, mn := 1900 + year + month / 12, month % 12;
    var n := UtcDay(year, month, day);
    MonthsIncrease(0, mn, IsLeap(ym));
    YearLength(ym - 1);
    assert n >= DayFromYear(ym - 1);
    var y := DateFromDay(n).year;
    if y <= 99 {
      YearsIncrease(y + 1, ym - 1);
    }
  }

  /** Accepted exactly when the text is well formed and names a real Gregorian date of years 0100 to 9999. */
  lemma ValidDateIsCalendarDate(value: string)
    ensures ValidDate(value) <==> HasDateShape(value) && IsCalendarDate(Fields(value))
  {
    if HasDateShape(value) {
      var f := Fields(value);
      if f.year <= 99 {
        ShortYearNeverReturns(f.year, f.month - 1, f.day);
      } else if IsCalendarDate(f) {
        DateRoundTrips(f.year, f.month - 1, f.day);
      }
    }
  }

  // ---------------------------------------------------------------- dates as they are written

  /** Thirty days hath September, April, June and November. */
  function MonthLength(y: int, month: int): (days: int)
    ensures 28 <= days <= 31
  {
    if month in {4, 6, 9, 11} then 30
    else if month == 2 then if (y % 4 == 0 && y % 100 != 0) || y % 400 == 0 then 29 else 28
    else 31
  }

  lemma MonthLengths(y: int, m: int)
    requires 0 <= m <= 11
    ensures DaysInMonth(y, m) == MonthLength(y, m + 1)
  {
    LeapCases(y);
  }

  function Digit(n: int): char
    requires 0 <= n <= 9
  {
    "0123456789"[n]
  }

  /** A date written with four digits, two digits and two digits. */
  function Written(y: int, m: int, d: int): string
    requires 0 <= y <= 9999 && 0 <= m <= 99 && 0 <= d <= 99
  {
    [Digit(y / 1000), Digit(y / 100 % 10), Digit(y / 10 % 10), Digit(y % 10), '-',
     Digit(m / 10), Digit(m % 10), '-', Digit(d / 10), Digit(d % 10)]
  }

  lemma DigitStands(c: char, n: int)
    requires IsDigit(c) && 0 <= n <= 9
    ensures c == Digit(n) <==> c as int - '0' as int == n
    ensures IsDigit(Digit(n)) && Digit(n) as int - '0' as int == n
  {
    assert "0123456789"[n] as int == '0' as int + n;
  }

  lemma OneDigit(a: char)
    requires IsDigit(a)
    ensures Number([a]) == a as int - '0' as int
  {
    assert [a][..0] == "";
  }

  lemma TwoDigits(a: char, b: char)
    requires IsDigit(a) && IsDigit(b)
    ensures Number([a, b]) == 10 * (a as int - '0' as int) + (b as int - '0' as int)
  {
    OneDigit(a);
    assert [a, b][..1] == [a];
  }

  lemma FourDigits(a: char, b: char, c: char, d: char)
    requires IsDigit(a) && IsDigit(b) && IsDigit(c) && IsDigit(d)
    ensures Number([a, b, c, d]) == 1000 * (a as int - '0' as int) + 100 * (b as int - '0' as int)
      + 10 * (c as int - '0' as int) + (d as int - '0' as int)
  {
    TwoDigits(a, b);
    assert [a, b, c][..2] == [a, b] && [a, b, c, d][..3] == [a, b, c];
  }

  lemma TensAndOnes(n: int, a: int, b: int)
    requires 0 <= a <= 9 && 0 <= b <= 9
    ensures n == 10 * a + b <==> 0 <= n <= 99 && n / 10 == a && n % 10 == b
  {
  }

  lemma LastDigit(n: int, u: int, d: int)
    requires 0 <= d <= 9
    ensures n == 10 * u + d <==> n / 10 == u && n % 10 == d
  {
  }

  lemma Shifts(n: int)
    ensures n / 100 == n / 10 / 10 && n / 1000 == n / 100 / 10
  {
  }

  lemma ThousandsToOnes(n: int, a: int, b: int, c: int, d: int)
    requires 0 <= a <= 9 && 0 <= b <= 9 && 0 <= c <= 9 && 0 <= d <= 9
    ensures n == 1000 * a + 100 * b + 10 * c + d <==>
      0 <= n <= 9999 && n / 1000 == a && n / 100 % 10 == b && n / 10 % 10 == c && n % 10 == d
  {
    LastDigit(n, 100 * a + 10 * b + c, d);
    LastDigit(n / 10, 10 * a + b, c);
    LastDigit(n / 100, a, b);
    Shifts(n);
  }

  /** Two characters are the two digits of a number exactly when they read as it. */
  lemma PairReads(a: char, b: char, n: int)
    requires IsDigit(a) && IsDigit(b) && 0 <= n <= 99
    ensures Number([a, b]) == n <==> a == Digit(n / 10) && b == Digit(n % 10)
  {
    TwoDigits(a, b);
    DigitStands(a, n / 10);
    DigitStands(b, n % 10);
    TensAndOnes(n, a as int - '0' as int, b as int - '0' as int);
  }

  lemma YearReads(a: char, b: char, c: char, d: char, n: int)
    requires IsDigit(a) && IsDigit(b) && IsDigit(c) && IsDigit(d) && 0 <= n <= 9999
    ensures Number([a, b, c, d]) == n <==>
      a == Digit(n / 1000) && b == Digit(n / 100 % 10) && c == Digit(n / 10 % 10) && d == Digit(n % 10)
  {
    FourDigits(a, b, c, d);
    DigitStands(a, n / 1000);
    DigitStands(b, n / 100 % 10);
    DigitStands(c, n / 10 % 10);
    DigitStands(d, n % 10);
    ThousandsToOnes(n, a as int - '0' as int, b as int - '0' as int, c as int - '0' as int, d as int - '0' as int);
  }

  lemma WrittenHasShape(y: int, m: int, d: int)
    requires 0 <= y <= 9999 && 0 <= m <= 99 && 0 <= d <= 99
    ensures HasDateShape(Written(y, m, d))
  {
    forall n | 0 <= n <= 9 ensures IsDigit(Digit(n)) {
      DigitStands('0', n);
    }
  }

  lemma SameText(a: string, b: string)
    requires |a| == 10 && |b| == 10
    ensures a == b <==>
      && a[0] == b[0] && a[1] == b[1] && a[2] == b[2] && a[3] == b[3] && a[4] == b[4]
      && a[5] == b[5] && a[6] == b[6] && a[7] == b[7] && a[8] == b[8] && a[9] == b[9]
  {
  }

  /** What is read from a text is what was written there, and nothing else. */
  lemma FieldsAreWritten(value: string, y: int, m: int, d: int)
    requires 0 <= y <= 9999 && 0 <= m <= 99 && 0 <= d <= 99
    ensures value == Written(y, m, d) <==> HasDateShape(value) && Fields(value) == Date(y, m, d)
  {
    WrittenHasShape(y, m, d);
    if HasDateShape(value) {
      assert value[..4] == [value[0], value[1], value[2], value[3]];
      assert value[5..7] == [value[5], value[6]] && value[8..] == [value[8], value[9]];
      YearReads(value[0], value[1], value[2], value[3], y);
      PairReads(value[5], value[6], m);
      PairReads(value[8], value[9], d);
      SameText(value, Written(y, m, d));
    }
  }

  ghost predicate IsDateText(value: string, y: int, m: int, d: int) {
    && 100 <= y <= 9999 && 1 <= m <= 12 && 1 <= d <= MonthLength(y, m)
    && value == Written(y, m, d)
  }

  lemma ValidIsDateText(value: string)
    requires ValidDate(value)
    ensures var f := Fields(value); IsDateText(value, f.year, f.month, f.day)
  {
    var f := Fields(value);
    ValidDateIsCalendarDate(value);
    MonthLengths(f.year, f.month - 1);
    FieldsAreWritten(value, f.year, f.month, f.day);
  }

  lemma DateTextIsValid(value: string, y: int, m: int, d: int)
    requires IsDateText(value, y, m, d)
    ensures ValidDate(value)
  {
    FieldsAreWritten(value, y, m, d);
    MonthLengths(y, m - 1);
    ValidDateIsCalendarDate(value);
  }

  /** The accepted texts are the dates of the Gregorian calendar from 0100-01-01 to 9999-12-31, as written. */
  lemma ValidDateIsWrittenDate(value: string)
    ensures ValidDate(value) <==> exists y, m, d :: IsDateText(value, y, m, d)
  {
    if ValidDate(value) {
      ValidIsDateText(value);
    }
    if y, m, d :| IsDateText(value, y, m, d) {
      DateTextIsValid(value, y, m, d);
    }
  }
}
