/** The proleptic Gregorian calendar of Go's time package, in one fixed-offset zone.
    Day n is the n-th midnight after 1 January of year 1, which was a Monday. */
module Calendar {

  predicate IsLeap(y: int) {
    y % 4 == 0 && (y % 100 != 0 || y % 400 == 0)
  }

  /** Days of a year that come before its month m; month 13 stands for the next January. */
  function MonthStart(leap: bool, m: int): int
    requires 1 <= m <= 13
  {
    (if m == 1 then 0 else if m == 2 then 31 else if m == 3 then 59 else if m == 4 then 90
     else if m == 5 then 120 else if m == 6 then 151 else if m == 7 then 181 else if m == 8 then 212
     else if m == 9 then 243 else if m == 10 then 273 else if m == 11 then 304 else if m == 12 then 334
     else 365)
    + (if m > 2 && leap then 1 else 0)
  }

  function DaysIn(leap: bool, m: int): int
    requires 1 <= m <= 12
  {
    if m == 2 then (if leap then 29 else 28)
    else if m == 4 || m == 6 || m == 9 || m == 11 then 30
    else 31
  }

  function YearDays(y: int): int {
    if IsLeap(y) then 366 else 365
  }

  /** The day number of 1 January of year y: the lengths of the years from year 1 up to y,
      or back from year 1 down to y. */
  function YearStart(y: int): int
    decreases if y >= 1 then y - 1 else 1 - y
  {
    if y == 1 then 0
    else if y > 1 then YearStart(y - 1) + YearDays(y - 1)
    else YearStart(y + 1) - YearDays(y)
  }

  datatype Date = Date(year: int, month: int, day: int) {
    predicate Valid() {
      1 <= month <= 12 && 1 <= day <= DaysIn(IsLeap(year), month)
    }

    /** The calendar day after this one. */
    function Successor(): Date
      requires Valid()
    {
      if day < DaysIn(IsLeap(year), month) then Date(year, month, day + 1)
      else if month < 12 then Date(year, month + 1, 1)
      else Date(year + 1, 1, 1)
    }
  }

  function DayNumber(d: Date): int
    requires 1 <= d.month <= 12
  {
    YearStart(d.year) + MonthStart(IsLeap(d.year), d.month) + d.day - 1
  }

  /** 29 February of a leap year; 1 March of a common year. */
  function LeapSlot(y: int): int {
    YearStart(y) + 59
  }

  /** Sunday is 0, as in Go. */
  function Weekday(n: int): (w: int)
    ensures 0 <= w <= 6
  {
    (n + 1) % 7
  }

  lemma YearLength(y: int)
    ensures YearStart(y + 1) == YearStart(y) + YearDays(y) == YearStart(y) + MonthStart(IsLeap(y), 13)
  {}

  /** The closed form of the calendar's leap rule. */
  lemma {:induction false} YearStartClosed(y: int)
    requires y >= 1
    ensures YearStart(y) == 365 * (y - 1) + (y - 1) / 4 - (y - 1) / 100 + (y - 1) / 400
  {
    if y > 1 {
      YearStartClosed(y - 1);
      ClosedStep(y - 1);
    }
  }

  lemma ClosedStep(x: int)
    requires x >= 1
    ensures 365 * x + x / 4 - x / 100 + x / 400
            == 365 * (x - 1) + (x - 1) / 4 - (x - 1) / 100 + (x - 1) / 400 + YearDays(x)
  {
    FloorStep(x, 4);
    FloorStep(x, 100);
    FloorStep(x, 400);
  }

  lemma FloorStep(x: int, k: int)
    requires x >= 1 && k in {4, 100, 400}
    ensures x / k == (x - 1) / k + (if x % k == 0 then 1 else 0)
  {}

  lemma {:induction false} YearStartMonotone(a: int, b: int)
    requires a <= b
    ensures YearStart(b) >= YearStart(a) + 365 * (b - a)
    decreases b - a
  {
    if a < b {
      YearStartMonotone(a, b - 1);
      YearLength(b - 1);
    }
  }

  /** The last year, counting up from y, that does not start after day n. */
  function YearFrom(n: int, y: int): (r: int)
    requires YearStart(y) <= n
    ensures YearStart(r) <= n < YearStart(r + 1)
    decreases n - YearStart(y)
  {
    YearLength(y);
    if n < YearStart(y + 1) then y else YearFrom(n, y + 1)
  }

  function YearOf(n: int): (r: int)
    ensures YearStart(r) <= n < YearStart(r + 1)
  {
    if n < 0 then YearStartMonotone(n, 1); YearFrom(n, n) else YearFrom(n, 1)
  }

  /** The last month, counting up from m, with at most k days of the year before it. */
  function MonthFrom(leap: bool, k: int, m: int): (r: int)
    requires 1 <= m <= 12 && MonthStart(leap, m) <= k < MonthStart(leap, 13)
    ensures 1 <= r <= 12 && MonthStart(leap, r) <= k < MonthStart(leap, r) + DaysIn(leap, r)
    decreases 12 - m
  {
    if k < MonthStart(leap, m + 1) then m else MonthFrom(leap, k, m + 1)
  }

  function DateOf(n: int): (d: Date)
    ensures d.Valid() && DayNumber(d) == n && d.year == YearOf(n)
  {
    var y := YearOf(n);
    YearLength(y);
    var k := n - YearStart(y);
    var m := MonthFrom(IsLeap(y), k, 1);
    Date(y, m, k - MonthStart(IsLeap(y), m) + 1)
  }

  lemma DayInYear(d: Date)
    requires d.Valid()
    ensures YearStart(d.year) <= DayNumber(d) < YearStart(d.year + 1)
    ensures YearOf(DayNumber(d)) == d.year
  {
    YearLength(d.year);
    var y := YearOf(DayNumber(d));
    if d.year < y { YearStartMonotone(d.year + 1, y); }
    if y < d.year { YearStartMonotone(y + 1, d.year); }
  }

  /** The month and the day within it are determined by the day of the year. */
  lemma MonthUnique(leap: bool, m: int, d: int, m': int, d': int)
    requires 1 <= m <= 12 && 1 <= d <= DaysIn(leap, m)
    requires 1 <= m' <= 12 && 1 <= d' <= DaysIn(leap, m')
    requires MonthStart(leap, m) + d == MonthStart(leap, m') + d'
    ensures m == m' && d == d'
  {}

  /** Day numbers and valid dates are in bijection: DateOf has the inverse DayNumber on both sides
      (the other side is DateOf's own contract). */
  lemma DateOfDayNumber(d: Date)
    requires d.Valid()
    ensures DateOf(DayNumber(d)) == d
  {
    DayInYear(d);
    var e := DateOf(DayNumber(d));
    MonthUnique(IsLeap(d.year), d.month, d.day, e.month, e.day);
  }

  /** Stepping the day number by one, as AddDate(0, 0, 1) does, is stepping the calendar date. */
  lemma NextDayIsSuccessor(n: int)
    ensures DateOf(n + 1) == DateOf(n).Successor()
    ensures Weekday(n + 1) == (Weekday(n) + 1) % 7
  {
    hide IsLeap, YearStart, DateOf;
    var d := DateOf(n);
    DayInYear(d);
    YearLength(d.year);
    assert DayNumber(d.Successor()) == n + 1;
    DateOfDayNumber(d.Successor());
  }

  /** The calendar agrees with a known instant: 1 January 1970 was a Thursday. */
  lemma UnixEpoch()
    ensures DateOf(719162) == Date(1970, 1, 1) && Weekday(719162) == 4
  {
    hide YearStart, DateOf;
    var d := Date(1970, 1, 1);
    YearStartClosed(1970);
    assert DayNumber(d) == 719162;
    DateOfDayNumber(d);
  }

  // ---- where the days a schedule can name are found ---------------------------------------

  /** A day of month m in the year after day n's. */
  lemma NextYear(n: int, m: int, dom: int) returns (k: int)
    requires 1 <= m <= 12 && 1 <= dom <= DaysIn(false, m)
    ensures k == DayNumber(Date(YearOf(n) + 1, m, dom))
    ensures n < k <= n + 731 && DateOf(k) == Date(YearOf(n) + 1, m, dom)
  {
    var y := YearOf(n) + 1;
    var d := Date(y, m, dom);
    k := DayNumber(d);
    YearLength(y - 1);
    YearLength(y);
    DayInYear(d);
    DateOfDayNumber(d);
  }

  /** Every month has every day of the week. */
  lemma WeekdayAhead(n: int, m: int, w: int) returns (k: int)
    requires 1 <= m <= 12 && 0 <= w <= 6
    ensures n < k <= n + 731 && DateOf(k).month == m && Weekday(k) == w
  {
    hide IsLeap, YearStart, DateOf, Weekday;
    var first := NextYear(n, m, 1);
    var x := WeekdayOffset(first, w);
    k := NextYear(n, m, 1 + x);
    assert k == first + x;
  }

  lemma WeekdayOffset(first: int, w: int) returns (x: int)
    requires 0 <= w <= 6
    ensures 0 <= x <= 6 && Weekday(first + x) == w
  {
    var f := Weekday(first);
    x := if f <= w then w - f else w - f + 7;
  }

  lemma LeapYearStart(k: int)
    requires 0 <= k <= 6
    ensures IsLeap(1996 + 4 * k) && YearStart(1996 + 4 * k) == YearStart(1996) + 1461 * k
  {
    hide YearStart;
    YearStartClosed(1996);
    YearStartClosed(1996 + 4 * k);
  }

  lemma WeekdayIs(n: int, weeks: int, w: int)
    requires 0 <= w <= 6 && n + 1 == 7 * weeks + w
    ensures Weekday(n) == w
  {}

  lemma WeekdayShift(n: int, w: int) returns (k: int)
    requires 0 <= w <= 6
    ensures 0 <= k <= 6 && Weekday(n + 1461 * k) == w
  {
    var weeks, f := (n + 1) / 7, Weekday(n);
    var ahead := if f <= w then w - f else w - f + 7;
    k := [0, 3, 6, 2, 5, 1, 4][ahead];
    hide Weekday;
    WeekdayIs(n + 1461 * k, weeks + 208 * k + (f + 5 * k - w) / 7, w);
  }

  /** Every date of the year falls on every day of the week: the leap years from 1996 to 2020 start on all seven. */
  lemma DateOnWeekday(m: int, d: int, w: int) returns (n: int)
    requires 1 <= m <= 12 && 1 <= d <= DaysIn(true, m) && 0 <= w <= 6
    ensures DateOf(n).month == m && DateOf(n).day == d && Weekday(n) == w
  {
    hide YearStart, DateOf, Weekday;
    var first := YearStart(1996) + MonthStart(true, m) + d - 1;
    var k := WeekdayShift(first, w);
    LeapYearStart(k);
    n := first + 1461 * k;
    DateOfDayNumber(Date(1996 + 4 * k, m, d));
  }

  predicate IsLeapDay(n: int) {
    DateOf(n).month == 2 && DateOf(n).day == 29
  }

  lemma LeapDayIsSlot(n: int)
    requires IsLeapDay(n)
    ensures var y := DateOf(n).year; IsLeap(y) && n == LeapSlot(y)
  {
    var d := DateOf(n);
    assert d.Valid() && DayNumber(d) == n;
  }

  lemma SlotIsLeapDay(y: int)
    requires IsLeap(y)
    ensures IsLeapDay(LeapSlot(y))
  {
    DateOfDayNumber(Date(y, 2, 29));
  }

  lemma LeapSlotMonotone(a: int, b: int)
    requires a <= b
    ensures LeapSlot(a) + 365 * (b - a) <= LeapSlot(b)
  {
    YearStartMonotone(a, b);
  }

  lemma LeapIsFourth(y: int)
    ensures IsLeap(y) ==> y % 4 == 0
  {}

  lemma LeapSlotFour(y: int)
    ensures LeapSlot(y) + 1460 <= LeapSlot(y + 4) <= LeapSlot(y) + 1461
  {
    hide YearStart, IsLeap;
    YearLength(y);
    YearLength(y + 1);
    YearLength(y + 2);
    YearLength(y + 3);
    LeapIsFourth(y);
    LeapIsFourth(y + 1);
    LeapIsFourth(y + 2);
    LeapIsFourth(y + 3);
  }

  /** The first century year after the year of day n. */
  function NextCentury(n: int): int {
    100 * (YearOf(n) / 100 + 1)
  }

  /** The century year after day n is not a leap year, the last 29 February before it is past
      (or today), and the first one after it is more than `reach` days away. */
  predicate InLeapGap(n: int, reach: int) {
    var c := NextCentury(n);
    c % 400 != 0 && LeapSlot(c - 4) <= n && n + reach < LeapSlot(c + 4)
  }

  lemma NoLeapYearInGap(c: int, y: int)
    requires c % 100 == 0 && c % 400 != 0 && c - 4 < y < c + 4
    ensures !IsLeap(y)
  {}

  lemma NoLeapDayBetween(c: int, k: int)
    requires c % 100 == 0 && c % 400 != 0 && LeapSlot(c - 4) < k < LeapSlot(c + 4)
    ensures !IsLeapDay(k)
  {
    hide IsLeap, LeapSlot, IsLeapDay;
    if IsLeapDay(k) {
      LeapDayIsSlot(k);
      var y := DateOf(k).year;
      if y <= c - 4 {
        LeapSlotMonotone(y, c - 4);
      } else if y >= c + 4 {
        LeapSlotMonotone(c + 4, y);
      } else {
        NoLeapYearInGap(c, y);
      }
    }
  }

  /** The gap really holds no leap day. */
  lemma GapHasNoLeapDay(n: int, reach: int, k: int)
    requires InLeapGap(n, reach) && n < k <= n + reach
    ensures !IsLeapDay(k)
  {
    hide LeapSlot, IsLeapDay, YearOf;
    NoLeapDayBetween(NextCentury(n), k);
  }

  /** The last multiple of four whose LeapSlot is not after day n. */
  lemma LastSlot(n: int) returns (l: int)
    ensures l % 4 == 0 && LeapSlot(l) <= n < LeapSlot(l + 4)
  {
    hide IsLeap, YearStart;
    var y := YearOf(n);
    l := y - y % 4;
    YearLength(y);
    LeapSlotMonotone(y + 1, l + 4);
    if n < LeapSlot(l) {
      l := l - 4;
      LeapSlotMonotone(l, y - 1);
      YearLength(y - 1);
    } else {
      assert n < YearStart(y + 1) < LeapSlot(l + 4);
    }
  }

  /** Outside the gap a 29 February follows within `reach` days. */
  lemma LeapDayAhead(n: int, reach: int) returns (k: int)
    requires 1520 <= reach && !InLeapGap(n, reach)
    ensures n < k <= n + reach && IsLeapDay(k)
  {
    hide LeapSlot, YearOf, IsLeapDay;
    var l := LastSlot(n);
    LeapSlotFour(l);
    if IsLeap(l + 4) {
      k := LeapSlot(l + 4);
      SlotIsLeapDay(l + 4);
    } else {
      NotLeapNextIs(l + 4);
      CenturyOf(n, l + 4);
      StartOfCentury(n, l + 4);
      LeapSlotFour(l + 4);
      k := LeapSlot(l + 8);
      SlotIsLeapDay(l + 8);
      LeapSlotMonotone(l + 4, l + 8);
    }
  }

  lemma StartOfCentury(n: int, c: int)
    ensures YearOf(n) == c ==> LeapSlot(c) <= n + 59
  {}

  lemma NotLeapNextIs(c: int)
    requires c % 4 == 0 && !IsLeap(c)
    ensures c % 100 == 0 && c % 400 != 0 && IsLeap(c + 4)
  {}

  lemma CenturyOf(n: int, c: int)
    requires c % 4 == 0 && !IsLeap(c) && LeapSlot(c - 4) <= n < LeapSlot(c)
    ensures YearOf(n) == c || NextCentury(n) == c
  {
    hide YearStart, IsLeap;
    var y := YearOf(n);
    NotLeapNextIs(c);
    if y < c - 4 {
      LeapSlotMonotone(y + 1, c - 4);
    } else if y > c {
      LeapSlotMonotone(c + 1, y);
      YearLength(c);
    } else if y < c {
      assert c == 100 * (c / 100);
    }
  }
}
