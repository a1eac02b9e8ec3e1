/** When a parsed cron expression fires, and the search for its next fire time. */
module CronSearch {
  import opened Wrappers
  import opened Calendar
  import opened CronParse

  /** An instant, in nanoseconds after midnight of day 0. */
  type Time = int

  const MINUTE: int := 60_000_000_000
  const DAY_MINUTES := 1440
  const HORIZON_DAYS := 366 * 5

  function MinuteNumber(t: Time): int {
    t / MINUTE
  }

  function DayOf(m: int): int {
    m / DAY_MINUTES
  }

  /** What every expression that parses satisfies: no field is empty. */
  ghost predicate Parsed(s: CronSpec) {
    && s.Valid()
    && (exists v :: s.minute.Has(v)) && (exists v :: s.hour.Has(v)) && (exists v :: s.dom.Has(v))
    && (exists v :: s.month.Has(v)) && (exists v :: s.dow.Has(v))
  }

  lemma SpecIsParsed(expr: string)
    ensures SpecOf(expr).Ok? ==> Parsed(SpecOf(expr).value)
  {
    hide FieldOf, Text.Fields;
    if SpecOf(expr).Ok? {
      var texts := Text.Fields(expr);
      FieldDenotation(texts[0], 0, 59);
      FieldDenotation(texts[1], 0, 23);
      FieldDenotation(texts[2], 1, 31);
      FieldDenotation(texts[3], 1, 12);
      FieldDenotation(texts[4], 0, 6);
    }
  }

  predicate DayMatches(s: CronSpec, n: int)
    requires s.Valid()
  {
    var domOK := s.dom.values[DateOf(n).day - 1];
    var dowOK := s.dow.values[Weekday(n)];
    && s.month.values[DateOf(n).month - 1]
    && if s.domRestricted && s.dowRestricted then domOK || dowOK
       else if s.domRestricted then domOK
       else if s.dowRestricted then dowOK
       else true
  }

  /** Whether minute number m fires. */
  predicate MinuteMatches(s: CronSpec, m: int)
    requires s.Valid()
  {
    s.minute.values[m % 60] && s.hour.values[m / 60 % 24] && DayMatches(s, DayOf(m))
  }

  predicate Matches(s: CronSpec, t: Time)
    requires s.Valid()
  {
    MinuteMatches(s, MinuteNumber(t))
  }

  // ---- the search -----------------------------------------------------------------------------

  /** The first minute that fires among lo, lo + 1, ..., hi - 1. */
  function Scan(s: CronSpec, lo: int, hi: int): (r: Option<int>)
    requires s.Valid()
    ensures r.Some? ==> lo <= r.value < hi && MinuteMatches(s, r.value)
    ensures forall u | lo <= u < (if r.Some? then r.value else hi) :: !MinuteMatches(s, u)
    decreases hi - lo
  {
    if lo >= hi then None
    else if MinuteMatches(s, lo) then Some(lo)
    else Scan(s, lo + 1, hi)
  }

  function HorizonEnd(t: Time): int {
    (DayOf(MinuteNumber(t)) + HORIZON_DAYS) * DAY_MINUTES
  }

  /** A flat scan of every minute from the one after t to the end of the horizon. */
  function NextFire(s: CronSpec, t: Time): Option<Time>
    requires s.Valid()
  {
    match Scan(s, MinuteNumber(t) + 1, HorizonEnd(t))
    case Some(m) => Some(m * MINUTE)
    case None => None
  }

  /** Soundness and minimality: the answer fires, lies strictly after t on a whole minute, and no
      minute in between fires; no answer means that no minute of the rest of the horizon fires. */
  ghost predicate IsNextFire(s: CronSpec, t: Time, r: Option<Time>)
    requires s.Valid()
  {
    match r
    case Some(c) => && Matches(s, c) && c > t && c % MINUTE == 0
                    && MinuteNumber(c) < HorizonEnd(t)
                    && forall u | MinuteNumber(t) < u < MinuteNumber(c) :: !MinuteMatches(s, u)
    case None => forall u | MinuteNumber(t) < u < HorizonEnd(t) :: !MinuteMatches(s, u)
  }

  lemma ScanUnique(s: CronSpec, lo: int, hi: int, r: Option<int>)
    requires s.Valid()
    requires r.Some? ==> lo <= r.value < hi && MinuteMatches(s, r.value)
    requires forall u | lo <= u < (if r.Some? then r.value else hi) :: !MinuteMatches(s, u)
    ensures Scan(s, lo, hi) == r
  {
    hide MinuteMatches;
    var q := Scan(s, lo, hi);
    if q.Some? && r.Some? {
      assert MinuteMatches(s, q.value) && MinuteMatches(s, r.value);
    }
  }

  /** nextAfter of cron_parse.go: day by day, and minute by minute within a day. */
  method NextAfter(s: CronSpec, t: Time) returns (r: Option<Time>)
    requires s.Valid()
    ensures r == NextFire(s, t) && IsNextFire(s, t, r)
  {
    hide MinuteMatches;
    NextFireIsNext(s, t);
    var tDay := DayOf(MinuteNumber(t));
    var day := tDay;
    for i := 0 to HORIZON_DAYS
      invariant day == tDay + i
      invariant forall u | MinuteNumber(t) < u < day * DAY_MINUTES :: !MinuteMatches(s, u)
    {
      var startMin := 0;
      if day == tDay {
        startMin := MinuteNumber(t) % DAY_MINUTES + 1;
      }
      for m := startMin to DAY_MINUTES
        invariant forall u | MinuteNumber(t) < u < day * DAY_MINUTES + m :: !MinuteMatches(s, u)
      {
        var cand := (day * DAY_MINUTES + m) * MINUTE;
        if Matches(s, cand) {
          assert MinuteNumber(cand) == day * DAY_MINUTES + m;
          ScanUnique(s, MinuteNumber(t) + 1, HorizonEnd(t), Some(MinuteNumber(cand)));
          return Some(cand);
        }
      }
      day := day + 1;
    }
    ScanUnique(s, MinuteNumber(t) + 1, HorizonEnd(t), None);
    r := None;
  }

  /** There is exactly one answer that is sound and minimal, and it is the one that the scan finds. */
  lemma NextFireIsNext(s: CronSpec, t: Time)
    requires s.Valid()
    ensures IsNextFire(s, t, NextFire(s, t))
    ensures forall r :: IsNextFire(s, t, r) ==> r == NextFire(s, t)
  {
    hide MinuteMatches;
    var found := Scan(s, MinuteNumber(t) + 1, HorizonEnd(t));
    assert found.Some? ==> MinuteNumber(found.value * MINUTE) == found.value;
    forall r | IsNextFire(s, t, r)
      ensures r == NextFire(s, t)
    {
      ScanUnique(s, MinuteNumber(t) + 1, HorizonEnd(t), if r.Some? then Some(MinuteNumber(r.value)) else None);
    }
  }

  // ---- completeness -------------------------------------------------------------------------------

  /** Some month of s has, in a leap or in a common year, a day of month that s lists. */
  ghost predicate HasDate(s: CronSpec, leap: bool)
    requires s.Valid()
  {
    exists m, d :: s.month.Has(m) && s.dom.Has(d) && d <= DaysIn(leap, m)
  }

  /** The days of s can occur at all. */
  ghost predicate CanFire(s: CronSpec)
    requires s.Valid()
  {
    !s.domRestricted || s.dowRestricted || HasDate(s, true)
  }

  /** The only date that s can name is 29 February. */
  ghost predicate LeapOnly(s: CronSpec)
    requires s.Valid()
  {
    s.domRestricted && !s.dowRestricted && HasDate(s, true) && !HasDate(s, false)
  }

  ghost predicate FiresLaterToday(s: CronSpec, t: Time)
    requires s.Valid()
  {
    var now := MinuteNumber(t);
    exists m :: now < m && DayOf(m) == DayOf(now) && MinuteMatches(s, m)
  }

  lemma FireOnDay(s: CronSpec, n: int) returns (m: int)
    requires Parsed(s) && DayMatches(s, n)
    ensures DayOf(m) == n && MinuteMatches(s, m)
  {
    hide DayMatches;
    var h :| s.hour.Has(h);
    var k :| s.minute.Has(k);
    m := n * DAY_MINUTES + h * 60 + k;
    assert m / 60 == n * 24 + h;
  }

  lemma MatchingDateExists(s: CronSpec, n: int)
    requires s.Valid() && s.domRestricted && !s.dowRestricted && DayMatches(s, n)
    ensures s.month.Has(DateOf(n).month) && s.dom.Has(DateOf(n).day)
    ensures HasDate(s, true) && (!HasDate(s, false) ==> IsLeapDay(n))
  {
    var d := DateOf(n);
    assert d.Valid();
    assert s.month.Has(d.month) && s.dom.Has(d.day) && d.day <= DaysIn(true, d.month);
  }

  /** A matching day in the two years after day n, unless only 29 February will do. */
  lemma CommonDayAhead(s: CronSpec, n: int) returns (k: int)
    requires Parsed(s) && CanFire(s) && !LeapOnly(s)
    ensures n < k <= n + 731 && DayMatches(s, k)
  {
    hide DateOf, Weekday;
    if s.dowRestricted || !s.domRestricted {
      var m :| s.month.Has(m);
      var w :| s.dow.Has(w);
      k := WeekdayAhead(n, m, w);
    } else {
      var m, d :| s.month.Has(m) && s.dom.Has(d) && d <= DaysIn(false, m);
      k := NextYear(n, m, d);
    }
  }

  lemma LeapOnlyDate(s: CronSpec)
    requires s.Valid() && LeapOnly(s)
    ensures s.month.values[1] && s.dom.values[28] && s.domRestricted && !s.dowRestricted
  {
    var m, d :| s.month.Has(m) && s.dom.Has(d) && d <= DaysIn(true, m);
    assert d > DaysIn(false, m);
  }

  lemma FebruaryAhead(s: CronSpec, n: int) returns (k: int)
    requires Parsed(s) && LeapOnly(s) && !InLeapGap(n, HORIZON_DAYS - 1)
    ensures n < k < n + HORIZON_DAYS && DayMatches(s, k)
  {
    hide DateOf, InLeapGap, Weekday;
    LeapOnlyDate(s);
    k := LeapDayAhead(n, HORIZON_DAYS - 1);
  }

  lemma FoundWithinHorizon(s: CronSpec, t: Time, m: int)
    requires s.Valid() && MinuteNumber(t) < m < HorizonEnd(t) && MinuteMatches(s, m)
    ensures NextFire(s, t).Some?
  {
    hide MinuteMatches;
  }

  /** The search comes back empty exactly when s names no date at all, or names only 29 February,
      does not fire later today, and t falls too long before the leap day after a century year
      that is not a leap year. */
  lemma SearchGivesUp(s: CronSpec, t: Time)
    requires Parsed(s)
    ensures NextFire(s, t).None? <==>
            !CanFire(s)
            || (LeapOnly(s) && InLeapGap(DayOf(MinuteNumber(t)), HORIZON_DAYS - 1) && !FiresLaterToday(s, t))
  {
    hide DayMatches, InLeapGap, CanFire, LeapOnly;
    var now := MinuteNumber(t);
    var today := DayOf(now);
    if CanFire(s) && !LeapOnly(s) {
      var k := CommonDayAhead(s, today);
      var m := FireOnDay(s, k);
      FoundWithinHorizon(s, t, m);
    } else if CanFire(s) && FiresLaterToday(s, t) {
      var m :| now < m && DayOf(m) == DayOf(now) && MinuteMatches(s, m);
      FoundWithinHorizon(s, t, m);
    } else if CanFire(s) && !InLeapGap(today, HORIZON_DAYS - 1) {
      var k := FebruaryAhead(s, today);
      var m := FireOnDay(s, k);
      FoundWithinHorizon(s, t, m);
    } else {
      NextFireIsNext(s, t);
      if c: Time :| NextFire(s, t) == Some(c) {
        NoFireInGap(s, t, MinuteNumber(c));
      }
    }
  }

  lemma NoFireInGap(s: CronSpec, t: Time, m: int)
    requires Parsed(s) && MinuteNumber(t) < m < HorizonEnd(t) && MinuteMatches(s, m)
    ensures CanFire(s)
    ensures LeapOnly(s) && InLeapGap(DayOf(MinuteNumber(t)), HORIZON_DAYS - 1) ==> FiresLaterToday(s, t)
  {
    hide InLeapGap, DateOf, IsLeapDay;
    var today, n := DayOf(MinuteNumber(t)), DayOf(m);
    if s.domRestricted && !s.dowRestricted {
      MatchingDateExists(s, n);
    }
    if LeapOnly(s) && InLeapGap(today, HORIZON_DAYS - 1) && n != today {
      GapHasNoLeapDay(today, HORIZON_DAYS - 1, n);
    }
  }

  /** CanFire says, from the fields alone, whether any minute at all fires. */
  lemma CanFireMeans(s: CronSpec)
    requires Parsed(s)
    ensures CanFire(s) <==> exists m :: MinuteMatches(s, m)
  {
    hide DayMatches, DateOf, IsLeapDay, MinuteMatches;
    if CanFire(s) && LeapOnly(s) {
      var n := FebruaryMatches(s);
      var m := FireOnDay(s, n);
    } else if CanFire(s) {
      var k := CommonDayAhead(s, 0);
      var m := FireOnDay(s, k);
    } else if m :| MinuteMatches(s, m) {
      MinuteOnDay(s, m);
      MatchingDateExists(s, DayOf(m));
    }
  }

  lemma MinuteOnDay(s: CronSpec, m: int)
    requires s.Valid() && MinuteMatches(s, m)
    ensures DayMatches(s, DayOf(m))
  {}

  lemma FebruaryMatches(s: CronSpec) returns (n: int)
    requires Parsed(s) && LeapOnly(s)
    ensures DayMatches(s, n)
  {
    hide DateOf, Weekday, LeapOnly;
    var d := Date(4, 2, 29);
    n := DayNumber(d);
    DateOfDayNumber(d);
    LeapOnlyDate(s);
  }

  /** A year that would be a leap year but for the century rule has its 1 March in the window. */
  ghost predicate SkippedLeapDay(first: int, last: int) {
    exists c :: c % 100 == 0 && c % 400 != 0 && first < LeapSlot(c) <= last
  }

  /** Whatever can fire is found, unless the horizon runs over a skipped leap day. */
  lemma SearchIsComplete(s: CronSpec, t: Time)
    requires Parsed(s) && CanFire(s)
    requires var today := DayOf(MinuteNumber(t)); !SkippedLeapDay(today, today + HORIZON_DAYS - 1)
    ensures NextFire(s, t).Some?
  {
    hide CanFire, LeapOnly, FiresLaterToday, NextFire, LeapSlot, Parsed;
    var today := DayOf(MinuteNumber(t));
    SearchGivesUp(s, t);
    if InLeapGap(today, HORIZON_DAYS - 1) {
      GapSkipsLeapDay(today);
    }
  }

  lemma GapSkipsLeapDay(n: int)
    requires InLeapGap(n, HORIZON_DAYS - 1)
    ensures SkippedLeapDay(n, n + HORIZON_DAYS - 1)
  {
    hide LeapSlot, YearOf;
    var c := NextCentury(n);
    LeapSlotFour(c - 4);
    LeapSlotFour(c);
    assert n < LeapSlot(c) <= n + HORIZON_DAYS - 1;
  }

  /** The failure is real: "0 0 29 2 *" never fires after 1 March 2096 as far as the search can see. */
  lemma LeapDayMissedInCenturyGap()
    ensures var e := Expression([Item(Single(0), None)], [Item(Single(0), None)], [Item(Single(29), None)],
                                [Item(Single(2), None)], [Item(Star, None)]);
            && e.Valid() && SpecOf(PrintExpression(e)).Ok?
            && var s := SpecOf(PrintExpression(e)).value;
               CanFire(s) && NextFire(s, DayNumber(Date(2096, 3, 1)) * DAY_MINUTES * MINUTE).None?
  {
    hide SpecOf, PrintExpression, DayNumber, NextFire, Parsed, CanFire;
    var e := Expression([Item(Single(0), None)], [Item(Single(0), None)], [Item(Single(29), None)],
                        [Item(Single(2), None)], [Item(Star, None)]);
    var s := LeapDaySpec(e);
    MissedAfter(s, 2096);
  }

  lemma MissedAfter(s: CronSpec, year: int)
    requires Parsed(s) && LeapOnly(s) && year == 2096
    ensures CanFire(s) && NextFire(s, DayNumber(Date(year, 3, 1)) * DAY_MINUTES * MINUTE).None?
  {
    hide DayNumber, NextFire, InLeapGap, DateOf, IsLeapDay, DayMatches;
    var n := DayNumber(Date(year, 3, 1));
    GapFrom2096(year, n);
    var t := n * DAY_MINUTES * MINUTE;
    assert MinuteNumber(t) == n * DAY_MINUTES;
    SearchGivesUp(s, t);
    if FiresLaterToday(s, t) {
      MatchingDateExists(s, n);
    }
  }

  lemma LeapDaySpec(e: Expression) returns (s: CronSpec)
    requires e == Expression([Item(Single(0), None)], [Item(Single(0), None)], [Item(Single(29), None)],
                             [Item(Single(2), None)], [Item(Star, None)])
    ensures e.Valid() && SpecOf(PrintExpression(e)) == Ok(s) && Parsed(s)
    ensures LeapOnly(s)
  {
    hide SpecOf, PrintExpression;
    ParsePrintedExpression(e);
    SpecIsParsed(PrintExpression(e));
    s := SpecOf(PrintExpression(e)).value;
    assert e.dom[0].Means(1, 31, 29) && e.month[0].Means(1, 12, 2);
    assert s.month.Has(2) && s.dom.Has(29);
  }

  lemma GapFrom2096(year: int, n: int)
    requires year == 2096 && n == DayNumber(Date(year, 3, 1))
    ensures InLeapGap(n, HORIZON_DAYS - 1) && !IsLeapDay(n)
  {
    hide YearStart, DateOf;
    var d := Date(year, 3, 1);
    DateOfDayNumber(d);
    DayInYear(d);
    YearStartClosed(year);
    YearStartClosed(year + 8);
  }

  // ---- the day rule against POSIX ---------------------------------------------------------------------

  predicate IsAsterisk(items: seq<Item>) {
    items == [Item(Star, None)]
  }

  predicate StarFree(items: seq<Item>) {
    forall k | 0 <= k < |items| :: !items[k].base.Star?
  }

  /** The day-of-month and day-of-week fields of the POSIX grammar: an asterisk, or no asterisk in it. */
  predicate PosixShaped(e: Expression) {
    (IsAsterisk(e.dom) || StarFree(e.dom)) && (IsAsterisk(e.dow) || StarFree(e.dow))
  }

  predicate MonthNamed(e: Expression, n: int) requires e.Valid() { ItemsMean(e.month, 1, 12, DateOf(n).month) }
  predicate DomNamed(e: Expression, n: int) requires e.Valid() { ItemsMean(e.dom, 1, 31, DateOf(n).day) }
  predicate DowNamed(e: Expression, n: int) requires e.Valid() { ItemsMean(e.dow, 0, 6, Weekday(n)) }

  /** The rule the parser documents: the month must match, and when both day fields are restricted
      either of them may match. */
  predicate DocumentedDay(e: Expression, n: int)
    requires e.Valid()
  {
    MonthNamed(e, n)
    && if !IsAsterisk(e.dom) && !IsAsterisk(e.dow) then DomNamed(e, n) || DowNamed(e, n)
       else DomNamed(e, n) && DowNamed(e, n)
  }

  /** crontab, POSIX.1-2017 XCU, INPUT FILES: with an element in the day of week and one in the month
      or day of month, a day matches by month and day of month together, or by day of week alone. */
  predicate PosixDay(e: Expression, n: int)
    requires e.Valid()
  {
    if IsAsterisk(e.dow) then MonthNamed(e, n) && DomNamed(e, n)
    else if IsAsterisk(e.month) && IsAsterisk(e.dom) then DowNamed(e, n)
    else (MonthNamed(e, n) && DomNamed(e, n)) || DowNamed(e, n)
  }

  /** The specification that an expression of the grammar parses to. */
  function Meaning(e: Expression): (s: CronSpec)
    requires e.Valid()
    ensures s.Valid()
  {
    ParsePrintedExpression(e);
    SpecOf(PrintExpression(e)).value
  }

  lemma DayMatchesByItems(e: Expression, n: int)
    requires e.Valid()
    ensures Meaning(e).domRestricted == StarFree(e.dom) && Meaning(e).dowRestricted == StarFree(e.dow)
    ensures DayMatches(Meaning(e), n) ==
            (MonthNamed(e, n)
             && if StarFree(e.dom) && StarFree(e.dow) then DomNamed(e, n) || DowNamed(e, n)
                else if StarFree(e.dom) then DomNamed(e, n)
                else if StarFree(e.dow) then DowNamed(e, n)
                else true)
  {
    hide SpecOf, PrintExpression, DateOf, ItemsMean;
    ParsePrintedExpression(e);
    var s := Meaning(e);
    var d := DateOf(n);
    assert d.Valid();
    assert s.month.Has(d.month) == s.month.values[d.month - 1];
    assert s.dom.Has(d.day) == s.dom.values[d.day - 1];
    assert s.dow.Has(Weekday(n)) == s.dow.values[Weekday(n)];
  }

  // ---- minutes, hours and days ------------------------------------------------------------------------

  /** Minute k of hour h of day n fires exactly when the minute, the hour and the day are all listed. */
  lemma MinuteOfHourOfDay(s: CronSpec, n: int, h: int, k: int)
    requires s.Valid() && 0 <= h < 24 && 0 <= k < 60
    ensures MinuteMatches(s, n * 1440 + h * 60 + k) <==> s.minute.Has(k) && s.hour.Has(h) && DayMatches(s, n)
  {
    hide DayMatches;
    assert (n * 1440 + h * 60 + k) / 60 == n * 24 + h;
  }

  /** An expression names minute k of hour h of day n. */
  predicate Names(e: Expression, n: int, h: int, k: int)
    requires e.Valid()
  {
    ItemsMean(e.minute, 0, 59, k) && ItemsMean(e.hour, 0, 23, h) && DayMatches(Meaning(e), n)
  }

  lemma FiresWhenNamed(e: Expression, n: int, h: int, k: int)
    requires e.Valid() && 0 <= h < 24 && 0 <= k < 60
    ensures MinuteMatches(Meaning(e), n * 1440 + h * 60 + k) <==> Names(e, n, h, k)
  {
    hide DayMatches, ItemsMean, MinuteMatches;
    MinuteOfHourOfDay(Meaning(e), n, h, k);
    ParsePrintedExpression(e);
  }

  lemma InstantOfMinute(t: Time, m: int)
    ensures MinuteNumber(m * 60_000_000_000) == m
    ensures t < m * 60_000_000_000 ==> MinuteNumber(t) < m
    ensures t / 86_400_000_000_000 == DayOf(MinuteNumber(t))
    ensures t % MINUTE == 0 ==> t == MinuteNumber(t) * 60_000_000_000
  {}

  /** What the search answers for a printed expression: a whole minute after t whose minute, hour and day the
      expression names, before the 1830th midnight after t, with no such minute in between; and nothing only
      when there is none before that midnight. */
  lemma AnswerIsNamed(e: Expression, t: Time, n: int, h: int, k: int)
    requires e.Valid() && 0 <= h < 24 && 0 <= k < 60
    ensures var at := (n * 1440 + h * 60 + k) * 60_000_000_000;
            match NextFire(Meaning(e), t)
            case Some(c) => c < (t / 86_400_000_000_000 + 1830) * 86_400_000_000_000
                            && (c == at ==> at > t && Names(e, n, h, k))
                            && (t < at < c ==> !Names(e, n, h, k))
            case None => t < at < (t / 86_400_000_000_000 + 1830) * 86_400_000_000_000 ==> !Names(e, n, h, k)
  {
    hide Names, MinuteMatches, NextFire, Meaning, Expression.Valid, MinuteNumber, DayOf;
    var m := n * 1440 + h * 60 + k;
    FiresWhenNamed(e, n, h, k);
    NextFireIsNext(Meaning(e), t);
    InstantOfMinute(t, m);
    if c: Time :| NextFire(Meaning(e), t) == Some(c) {
      InstantOfMinute(c, m);
      InstantOfMinute(m * 60_000_000_000, MinuteNumber(c));
    }
  }

  lemma PartsOfMinute(c: Time) returns (n: int, h: int, k: int)
    requires c % MINUTE == 0
    ensures 0 <= h < 24 && 0 <= k < 60 && c == (n * 1440 + h * 60 + k) * 60_000_000_000
  {
    var m := c / MINUTE;
    var hours := m / 60;
    n, h, k := hours / 24, hours % 24, m % 60;
    assert hours == n * 24 + h && m == hours * 60 + k;
  }

  /** Every answer has that form. */
  lemma AnswerIsAMinute(e: Expression, t: Time) returns (n: int, h: int, k: int)
    requires e.Valid() && NextFire(Meaning(e), t).Some?
    ensures 0 <= h < 24 && 0 <= k < 60 && NextFire(Meaning(e), t) == Some((n * 1440 + h * 60 + k) * 60_000_000_000)
    ensures Names(e, n, h, k)
  {
    hide Names, NextFire, Matches, Meaning, Expression.Valid;
    NextFireIsNext(Meaning(e), t);
    n, h, k := PartsOfMinute(NextFire(Meaning(e), t).value);
    AnswerIsNamed(e, t, n, h, k);
  }

  lemma PrintedNine(e: Expression)
    requires e == Expression([Item(Single(0), None)], [Item(Single(9), None)], [Item(Star, None)],
                             [Item(Star, None)], [Item(Star, None)])
    ensures PrintExpression(e) == "0 9 * * *"
  {
    assert PrintField(e.minute) == "0" && PrintField(e.hour) == "9" && PrintField(e.dom) == "*";
    var texts := ["0", "9", "*", "*", "*"];
    assert texts[1..] == ["9", "*", "*", "*"] && texts[1..][1..] == ["*", "*", "*"];
    assert texts[1..][1..][1..] == ["*", "*"] && texts[1..][1..][1..][1..] == ["*"];
    assert Text.Join(["*", "*"], ' ') == "* *";
    assert Text.Join(["*", "*", "*"], ' ') == "* * *";
    assert Text.Join(["9", "*", "*", "*"], ' ') == "9 * * *";
  }

  lemma NineIsNamed(e: Expression, n: int, h: int, k: int)
    requires e == Expression([Item(Single(0), None)], [Item(Single(9), None)], [Item(Star, None)],
                             [Item(Star, None)], [Item(Star, None)])
    requires 0 <= h < 24 && 0 <= k < 60
    ensures e.Valid()
    ensures Names(e, n, h, k) <==> h == 9 && k == 0
  {
    hide Meaning, DayMatches, DateOf, Weekday;
    DayMatchesByItems(e, n);
    assert e.dom[0].base.Star? && e.dow[0].base.Star?;
    AsteriskMeansAll(e.month, 1, 12, DateOf(n).month);
    assert ItemsMean(e.minute, 0, 59, k) == e.minute[0].Means(0, 59, k);
    assert ItemsMean(e.hour, 0, 23, h) == e.hour[0].Means(0, 23, h);
  }

  /** So "0 9 * * *" fires at nine: that is what the search answers for every time before nine on any day. */
  lemma NineOClock(e: Expression, n: int, t: Time)
    requires e == Expression([Item(Single(0), None)], [Item(Single(9), None)], [Item(Star, None)],
                             [Item(Star, None)], [Item(Star, None)])
    requires n * 86_400_000_000_000 <= t < n * 86_400_000_000_000 + 32_400_000_000_000
    ensures e.Valid() && NextFire(Meaning(e), t) == Some(n * 86_400_000_000_000 + 32_400_000_000_000)
  {
    hide NextFire, Names, Meaning, Expression.Valid;
    NineIsNamed(e, n, 9, 0);
    AnswerIsNamed(e, t, n, 9, 0);
    assert t / 86_400_000_000_000 == n;
    if NextFire(Meaning(e), t).Some? {
      var n', h, k := AnswerIsAMinute(e, t);
      NineIsNamed(e, n', h, k);
      AnswerIsNamed(e, t, n', h, k);
    }
  }

  lemma AsteriskMeansAll(items: seq<Item>, min: nat, max: nat, v: int)
    requires IsAsterisk(items) && 0 <= min <= v <= max
    ensures ItemsMean(items, min, max, v)
  {
    CronParse.MultipleIsProduct(v - min, 1);
    assert v - min == (v - min) * 1;
    assert items[0].Means(min, max, v);
  }

  lemma DayIsPossible(n: int)
    ensures 1 <= DateOf(n).month <= 12 && 1 <= DateOf(n).day <= DaysIn(true, DateOf(n).month) <= 31
  {
    hide DateOf;
    assert DateOf(n).Valid();
  }

  /** Where both day fields have the POSIX shape the code follows its documented rule on every day. */
  lemma FollowsDocumentedRule(e: Expression, n: int)
    requires e.Valid() && PosixShaped(e)
    ensures DayMatches(Meaning(e), n) == DocumentedDay(e, n)
  {
    hide ItemsMean, DateOf, Meaning, DayMatches, DaysIn, Weekday;
    DayMatchesByItems(e, n);
    DayIsPossible(n);
    if IsAsterisk(e.dom) { AsteriskMeansAll(e.dom, 1, 31, DateOf(n).day); assert e.dom[0].base.Star?; }
    if IsAsterisk(e.dow) { AsteriskMeansAll(e.dow, 0, 6, Weekday(n)); assert e.dow[0].base.Star?; }
  }

  predicate FullField(items: seq<Item>, min: nat, max: nat)
    requires ValidItems(items, min, max)
  {
    forall v | min <= v <= max :: ItemsMean(items, min, max, v)
  }

  /** Against the text of POSIX the code is right exactly when the month or the day of week is an
      asterisk, or the month field lists every month and either the day of month is restricted too or
      the day of week lists every day: the code always requires the month, POSIX does not. */
  lemma AgreesWithPosix(e: Expression)
    requires e.Valid() && PosixShaped(e)
    ensures (forall n :: DayMatches(Meaning(e), n) == PosixDay(e, n)) <==>
            IsAsterisk(e.dow) || IsAsterisk(e.month)
            || (FullField(e.month, 1, 12) && (!IsAsterisk(e.dom) || FullField(e.dow, 0, 6)))
  {
    hide ItemsMean, DateOf, Meaning, DayMatches;
    if IsAsterisk(e.dow) || IsAsterisk(e.month)
       || (FullField(e.month, 1, 12) && (!IsAsterisk(e.dom) || FullField(e.dow, 0, 6))) {
      forall n
        ensures DayMatches(Meaning(e), n) == PosixDay(e, n)
      {
        PosixWhenGuarded(e, n);
      }
    } else {
      var n := PosixDiffers(e);
    }
  }

  lemma PosixWhenGuarded(e: Expression, n: int)
    requires e.Valid() && PosixShaped(e)
    requires IsAsterisk(e.dow) || IsAsterisk(e.month)
             || (FullField(e.month, 1, 12) && (!IsAsterisk(e.dom) || FullField(e.dow, 0, 6)))
    ensures DayMatches(Meaning(e), n) == PosixDay(e, n)
  {
    hide ItemsMean, DateOf, Meaning, DayMatches;
    FollowsDocumentedRule(e, n);
    assert DateOf(n).Valid();
    if IsAsterisk(e.dom) { AsteriskMeansAll(e.dom, 1, 31, DateOf(n).day); }
    if IsAsterisk(e.dow) { AsteriskMeansAll(e.dow, 0, 6, Weekday(n)); }
    if IsAsterisk(e.month) { AsteriskMeansAll(e.month, 1, 12, DateOf(n).month); }
  }

  lemma PosixDiffers(e: Expression) returns (n: int)
    requires e.Valid() && PosixShaped(e)
    requires !IsAsterisk(e.dow) && !IsAsterisk(e.month)
    requires !(FullField(e.month, 1, 12) && (!IsAsterisk(e.dom) || FullField(e.dow, 0, 6)))
    ensures DayMatches(Meaning(e), n) != PosixDay(e, n)
  {
    hide ItemsMean, DateOf, Meaning, DayMatches, Weekday;
    if !FullField(e.month, 1, 12) {
      var m :| 1 <= m <= 12 && !ItemsMean(e.month, 1, 12, m);
      var w := NamedWeekday(e);
      n := WeekdayAhead(0, m, w);
    } else {
      var w :| 0 <= w <= 6 && !ItemsMean(e.dow, 0, 6, w);
      n := WeekdayAhead(0, 1, w);
      assert DateOf(n).Valid();
      AsteriskMeansAll(e.dom, 1, 31, DateOf(n).day);
    }
    FollowsDocumentedRule(e, n);
  }

  lemma NamedWeekday(e: Expression) returns (w: int)
    requires e.Valid()
    ensures 0 <= w <= 6 && ItemsMean(e.dow, 0, 6, w)
  {
    var item := e.dow[0];
    w := match item.base case Star => 0 case Single(x) => x case Range(x, _) => x;
    assert item.Means(0, 6, w);
  }

  // With month 1 and day of week 1 the code fires on the Mondays of January; POSIX has every day of January and
  // every Monday.
  lemma PosixMonthInstance(e: Expression, n: int)
    requires e.Valid() && e.month == [Item(Single(1), None)] && e.dow == [Item(Single(1), None)]
    requires e.dom == [Item(Star, None)]
    ensures DayMatches(Meaning(e), n) == (DateOf(n).month == 1 && Weekday(n) == 1)
    ensures PosixDay(e, n) == (DateOf(n).month == 1 || Weekday(n) == 1)
    ensures exists d :: DayMatches(Meaning(e), d) != PosixDay(e, d)
  {
    hide DateOf, Meaning, DayMatches, Weekday, DaysIn, ItemsMean, Item.Means, IsMultiple, DayNumber, YearStart,
         YearOf, MonthStart, ValidItems;
    DayMatchesByItems(e, n);
    AsterisksOnDay(e, n);
    OnlyOneMeans(e.month, 1, 12, DateOf(n).month);
    OnlyOneMeans(e.dow, 0, 6, Weekday(n));
    OnlyOneMeans(e.month, 1, 12, 2);
    assert !FullField(e.month, 1, 12);
    AgreesWithPosix(e);
  }

  // ---- where a starred day field is ignored -------------------------------------------------------------

  /** A star among other things in the field, such as a star with a step. */
  predicate Mixed(items: seq<Item>) {
    !IsAsterisk(items) && !StarFree(items)
  }

  /** The day of month leaves out no date that the listed months can have. */
  predicate DomAll(e: Expression)
    requires e.Valid()
  {
    forall m, d | 1 <= m <= 12 && 1 <= d <= DaysIn(true, m) ::
      ItemsMean(e.month, 1, 12, m) ==> ItemsMean(e.dom, 1, 31, d)
  }

  predicate DowAll(e: Expression)
    requires e.Valid()
  {
    FullField(e.dow, 0, 6)
  }

  /** Taking a mixed day field for unrestricted makes no difference. */
  predicate StarsHarmless(e: Expression)
    requires e.Valid()
  {
    && (Mixed(e.dom) && Mixed(e.dow) ==> DomAll(e) || DowAll(e))
    && (Mixed(e.dom) && IsAsterisk(e.dow) ==> DomAll(e))
    && (Mixed(e.dom) && StarFree(e.dow) ==> DowAll(e))
    && (IsAsterisk(e.dom) && Mixed(e.dow) ==> DowAll(e))
    && (StarFree(e.dom) && Mixed(e.dow) ==> DomAll(e))
  }

  /** A field that holds a star anywhere counts as unrestricted, and its values are ignored. The code follows
      its documented rule on every day exactly where that makes no difference, for every expression. */
  lemma StarStepIgnored(e: Expression)
    requires e.Valid()
    ensures (forall n :: DayMatches(Meaning(e), n) == DocumentedDay(e, n)) <==> StarsHarmless(e)
  {
    hide StarsHarmless, Meaning, DayMatches, DocumentedDay;
    if StarsHarmless(e) {
      forall n
        ensures DayMatches(Meaning(e), n) == DocumentedDay(e, n)
      {
        HarmlessDay(e, n);
      }
    } else {
      var n := HarmfulDay(e);
    }
  }

  lemma HarmlessDay(e: Expression, n: int)
    requires e.Valid() && StarsHarmless(e)
    ensures DayMatches(Meaning(e), n) == DocumentedDay(e, n)
  {
    hide ItemsMean, DateOf, Meaning, DayMatches, DaysIn, Weekday;
    DayMatchesByItems(e, n);
    DayIsPossible(n);
    AsterisksOnDay(e, n);
  }

  lemma AsterisksOnDay(e: Expression, n: int)
    requires e.Valid()
    ensures IsAsterisk(e.dom) ==> DomNamed(e, n) && !StarFree(e.dom)
    ensures IsAsterisk(e.dow) ==> DowNamed(e, n) && !StarFree(e.dow)
  {
    hide ItemsMean, DateOf, Weekday, DaysIn;
    DayIsPossible(n);
    if IsAsterisk(e.dom) { AsteriskMeansAll(e.dom, 1, 31, DateOf(n).day); assert e.dom[0].base.Star?; }
    if IsAsterisk(e.dow) { AsteriskMeansAll(e.dow, 0, 6, Weekday(n)); assert e.dow[0].base.Star?; }
  }

  /** A star, with whatever step, means the first value of its field. */
  lemma StarMeansFirst(items: seq<Item>, min: nat, max: nat)
    requires ValidItems(items, min, max) && !StarFree(items) && min <= max
    ensures ItemsMean(items, min, max, min)
  {
    var k :| 0 <= k < |items| && items[k].base.Star?;
    assert items[k].Means(min, max, min);
  }

  lemma NamedMonth(e: Expression) returns (m: int)
    requires e.Valid()
    ensures 1 <= m <= 12 && ItemsMean(e.month, 1, 12, m)
  {
    var item := e.month[0];
    m := match item.base case Star => 1 case Single(x) => x case Range(x, _) => x;
    assert item.Means(1, 12, m);
  }

  lemma HarmfulDay(e: Expression) returns (n: int)
    requires e.Valid() && !StarsHarmless(e)
    ensures DayMatches(Meaning(e), n) != DocumentedDay(e, n)
  {
    hide ItemsMean, DateOf, Meaning, DayMatches, Weekday, FullField, DomAll;
    AsterisksOnDay(e, 0);
    if Mixed(e.dom) && StarFree(e.dow) {
      var m := NamedMonth(e);
      StarMeansFirst(e.dom, 1, 31);
      n := DayWith(e, m, 1, MissingWeekday(e));
    } else if StarFree(e.dom) && Mixed(e.dow) {
      var m, d := MissingDate(e);
      StarMeansFirst(e.dow, 0, 6);
      n := DayWith(e, m, d, 0);
    } else if IsAsterisk(e.dom) {
      var m := NamedMonth(e);
      n := DayWith(e, m, 1, MissingWeekday(e));
    } else {
      var m, d := MissingDate(e);
      n := DayWith(e, m, d, if Mixed(e.dow) then MissingWeekday(e) else 0);
    }
    DayMatchesByItems(e, n);
    AsterisksOnDay(e, n);
  }

  ghost function MissingWeekday(e: Expression): (w: int)
    requires e.Valid() && !DowAll(e)
    ensures 0 <= w <= 6 && !ItemsMean(e.dow, 0, 6, w)
  {
    var w :| 0 <= w <= 6 && !ItemsMean(e.dow, 0, 6, w);
    w
  }

  lemma MissingDate(e: Expression) returns (m: int, d: int)
    requires e.Valid() && !DomAll(e)
    ensures 1 <= m <= 12 && 1 <= d <= DaysIn(true, m)
    ensures ItemsMean(e.month, 1, 12, m) && !ItemsMean(e.dom, 1, 31, d)
  {
    hide ItemsMean, DaysIn;
    m, d :| 1 <= m <= 12 && 1 <= d <= DaysIn(true, m) && ItemsMean(e.month, 1, 12, m) && !ItemsMean(e.dom, 1, 31, d);
  }

  /** A day with this date and weekday, read off the fields. */
  lemma DayWith(e: Expression, m: int, d: int, w: int) returns (n: int)
    requires e.Valid() && 1 <= m <= 12 && 1 <= d <= DaysIn(true, m) && 0 <= w <= 6
    ensures MonthNamed(e, n) == ItemsMean(e.month, 1, 12, m)
    ensures DomNamed(e, n) == ItemsMean(e.dom, 1, 31, d)
    ensures DowNamed(e, n) == ItemsMean(e.dow, 0, 6, w)
  {
    hide ItemsMean, DateOf, Weekday;
    n := DateOnWeekday(m, d, w);
  }

  lemma EverySecond(v: nat)
    ensures IsMultiple(v, 2) <==> v % 2 == 0
  {
    MultipleIsProduct(v, 2);
    if v % 2 == 0 {
      assert v == (v / 2) * 2;
    }
  }

  lemma EverySecondMeans(items: seq<Item>, min: nat, max: nat, v: int)
    requires items == [Item(Star, Some(2))] && ValidItems(items, min, max)
    ensures ItemsMean(items, min, max, v) <==> min <= v <= max && (v - min) % 2 == 0
  {
    assert ItemsMean(items, min, max, v) == items[0].Means(min, max, v);
    if min <= v {
      EverySecond(v - min);
    }
  }

  lemma OnlyOneMeans(items: seq<Item>, min: nat, max: nat, v: int)
    requires items == [Item(Single(1), None)] && ValidItems(items, min, max)
    ensures ItemsMean(items, min, max, v) <==> v == 1
  {
    assert ItemsMean(items, min, max, v) == items[0].Means(min, max, v);
  }

  // With * for the day of month and */2 for the day of week the code fires every day of the listed months;
  // the rule names four weekdays.
  lemma StarredWeekday(e: Expression, n: int)
    requires e.Valid() && e.dom == [Item(Star, None)] && e.dow == [Item(Star, Some(2))]
    ensures DayMatches(Meaning(e), n) == MonthNamed(e, n)
    ensures DocumentedDay(e, n) == (MonthNamed(e, n) && Weekday(n) in {0, 2, 4, 6})
    ensures !StarsHarmless(e)
  {
    hide DateOf, Meaning, DayMatches, Weekday, DaysIn, ItemsMean, Item.Means, IsMultiple, DomAll, DayNumber,
         YearStart, YearOf, MonthStart, ValidItems;
    DayMatchesByItems(e, n);
    AsterisksOnDay(e, n);
    assert e.dow[0].base.Star?;
    EverySecondMeans(e.dow, 0, 6, Weekday(n));
    EverySecondMeans(e.dow, 0, 6, 1);
  }

  // With */2 for the day of month and 1 for the day of week it fires on Mondays only; the rule adds every odd day.
  lemma StarredDate(e: Expression, n: int)
    requires e.Valid() && e.dom == [Item(Star, Some(2))] && e.dow == [Item(Single(1), None)]
    ensures DayMatches(Meaning(e), n) == (MonthNamed(e, n) && Weekday(n) == 1)
    ensures DocumentedDay(e, n) == (MonthNamed(e, n) && (DateOf(n).day % 2 == 1 || Weekday(n) == 1))
    ensures !StarsHarmless(e)
  {
    hide DateOf, Meaning, DayMatches, Weekday, DaysIn, ItemsMean, Item.Means, IsMultiple, DomAll, DayNumber,
         YearStart, YearOf, MonthStart, ValidItems;
    DayMatchesByItems(e, n);
    DayIsPossible(n);
    assert e.dom[0].base.Star?;
    EverySecondMeans(e.dom, 1, 31, DateOf(n).day);
    OnlyOneMeans(e.dow, 0, 6, Weekday(n));
    OnlyOneMeans(e.dow, 0, 6, 0);
    assert !FullField(e.dow, 0, 6);
  }
}
