/** The cron tick loop of cron_sched.go, and its agreement with the next-fire search. */
module CronSched {
  import opened Wrappers
  import opened Calendar
  import opened CronParse
  import opened CronSearch

  type TaskId = string

  /** An enabled row of scheduled_tasks; what the task runs does not matter here. */
  datatype Task = Task(id: TaskId, cron: string)

  predicate Due(e: Task, nowMin: Time) {
    SpecOf(e.cron).Ok? && Matches(SpecOf(e.cron).value, nowMin)
  }

  /** t.Truncate(time.Minute), in a zone whose offset is a whole number of minutes. */
  function TruncateMinute(t: Time): Time {
    MinuteNumber(t) * MINUTE
  }

  datatype Pass = Pass(lastFired: map<TaskId, Time>, fired: seq<TaskId>)

  /** One pass over the rows: a due row fires unless it already fired in this minute. */
  function Tick(lastFired: map<TaskId, Time>, rows: seq<Task>, nowMin: Time): Pass {
    if rows == [] then Pass(lastFired, [])
    else
      var e := rows[|rows| - 1];
      var p := Tick(lastFired, rows[..|rows| - 1], nowMin);
      if Due(e, nowMin) && !(e.id in p.lastFired && p.lastFired[e.id] == nowMin)
      then Pass(p.lastFired[e.id := nowMin], p.fired + [e.id])
      else p
  }

  class Scheduler {
    var lastFired: map<TaskId, Time>

    constructor ()
      ensures lastFired == map[]
    {
      lastFired := map[];
    }

    method CronTickOnce(rows: seq<Task>, now: Time) returns (fired: seq<TaskId>)
      modifies this
      ensures Pass(lastFired, fired) == Tick(old(lastFired), rows, TruncateMinute(now))
    {
      var nowMin := TruncateMinute(now);
      fired := [];
      for i := 0 to |rows|
        invariant Pass(lastFired, fired) == Tick(old(lastFired), rows[..i], nowMin)
      {
        assert rows[..i + 1][..i] == rows[..i];
        var e := rows[i];
        var spec := ParseCron(e.cron);
        if spec.Err? || !Matches(spec.value, nowMin) {
          continue;
        }
        if e.id in lastFired && lastFired[e.id] == nowMin {
          continue;
        }
        lastFired := lastFired[e.id := nowMin];
        fired := fired + [e.id];
      }
      assert rows[..|rows|] == rows;
    }
  }

  // ---- runs of the tick loop ---------------------------------------------------------------------

  /** A pass of the loop: the enabled rows it reads and the time it reads them. */
  datatype TickEvent = TickEvent(rows: seq<Task>, now: Time)

  /** Task ids are the table's primary key. */
  predicate UniqueIds(rows: seq<Task>) {
    forall i, j | 0 <= i < j < |rows| :: rows[i].id != rows[j].id
  }

  /** In every pass the task e is enabled and unchanged, and time does not run backwards. */
  predicate RunOf(e: Task, ticks: seq<TickEvent>) {
    && (forall i | 0 <= i < |ticks| :: e in ticks[i].rows && UniqueIds(ticks[i].rows))
    && (forall i, j | 0 <= i <= j < |ticks| :: ticks[i].now <= ticks[j].now)
  }

  function LastFiredAfter(ticks: seq<TickEvent>): map<TaskId, Time> {
    if ticks == [] then map[]
    else
      var n := |ticks| - 1;
      Tick(LastFiredAfter(ticks[..n]), ticks[n].rows, TruncateMinute(ticks[n].now)).lastFired
  }

  function Occurrences(ids: seq<TaskId>, id: TaskId): nat {
    if ids == [] then 0 else Occurrences(ids[..|ids| - 1], id) + (if ids[|ids| - 1] == id then 1 else 0)
  }

  function Repeat(m: int, k: nat): seq<int> {
    seq(k, _ => m)
  }

  /** The minutes in which a run fires a task, once for every time it fires. */
  function FireMinutes(ticks: seq<TickEvent>, id: TaskId): seq<int> {
    if ticks == [] then []
    else
      var n := |ticks| - 1;
      var p := Tick(LastFiredAfter(ticks[..n]), ticks[n].rows, TruncateMinute(ticks[n].now));
      FireMinutes(ticks[..n], id) + Repeat(MinuteNumber(ticks[n].now), Occurrences(p.fired, id))
  }

  /** The row of e is the only one with its id. */
  predicate OwnRow(rows: seq<Task>, e: Task) {
    forall r | r in rows && r.id == e.id :: r == e
  }

  function LastOf(lastFired: map<TaskId, Time>, id: TaskId): Option<Time> {
    if id in lastFired then Some(lastFired[id]) else None
  }

  predicate Fires(lastFired: map<TaskId, Time>, rows: seq<Task>, nowMin: Time, e: Task) {
    e in rows && Due(e, nowMin) && LastOf(lastFired, e.id) != Some(nowMin)
  }

  /** What one pass does to a task depends on its own row alone. */
  lemma {:induction false} TickIsLocal(lastFired: map<TaskId, Time>, rows: seq<Task>, nowMin: Time, e: Task)
    requires UniqueIds(rows) && OwnRow(rows, e)
    ensures var p := Tick(lastFired, rows, nowMin);
            var fires := Fires(lastFired, rows, nowMin, e);
            && Occurrences(p.fired, e.id) == (if fires then 1 else 0)
            && LastOf(p.lastFired, e.id) == if fires then Some(nowMin) else LastOf(lastFired, e.id)
  {
    hide Due, UniqueIds, OwnRow, Occurrences;
    if rows == [] {
      NoOccurrences(e.id);
    } else {
      var n := |rows| - 1;
      FrontRows(rows, e);
      TickIsLocal(lastFired, rows[..n], nowMin, e);
      OccurrencesSnoc(Tick(lastFired, rows[..n], nowMin).fired, rows[n].id, e.id);
    }
  }

  lemma NoOccurrences(id: TaskId)
    ensures Occurrences([], id) == 0
  {}

  lemma OccurrencesSnoc(ids: seq<TaskId>, x: TaskId, id: TaskId)
    ensures Occurrences(ids + [x], id) == Occurrences(ids, id) + (if x == id then 1 else 0)
  {
    assert (ids + [x])[..|ids|] == ids;
  }

  lemma FrontRows(rows: seq<Task>, e: Task)
    requires rows != [] && UniqueIds(rows) && OwnRow(rows, e)
    ensures var n := |rows| - 1; var front := rows[..n];
            && UniqueIds(front) && OwnRow(front, e)
            && (e in rows <==> e in front || rows[n] == e)
            && (rows[n].id == e.id <==> rows[n] == e) && (rows[n] == e ==> e !in front)
  {
    var n := |rows| - 1;
    assert rows == rows[..n] + [rows[n]];
  }

  predicate FiresAt(e: Task, m: int) {
    SpecOf(e.cron).Ok? && MinuteMatches(SpecOf(e.cron).value, m)
  }

  lemma DueMeans(e: Task, m: int)
    ensures Due(e, m * MINUTE) == FiresAt(e, m)
  {
    assert MinuteNumber(m * MINUTE) == m;
  }

  /** The distinct minutes of the passes, in order, in which the task fires by its expression. */
  function DueMinutes(ticks: seq<TickEvent>, e: Task): seq<int> {
    if ticks == [] then []
    else
      var n := |ticks| - 1;
      var m := MinuteNumber(ticks[n].now);
      DueMinutes(ticks[..n], e)
      + (if FiresAt(e, m) && !(n > 0 && MinuteNumber(ticks[n - 1].now) == m) then [m] else [])
  }

  /** In every run the task fires exactly once in each minute that a pass sees and the expression
      matches, however many passes fall into that minute. */
  lemma {:induction false} FiresOncePerMinute(ticks: seq<TickEvent>, e: Task)
    requires RunOf(e, ticks)
    ensures FireMinutes(ticks, e.id) == DueMinutes(ticks, e)
    ensures var last := LastFiredAfter(ticks);
            if ticks == [] then e.id !in last
            else var m := MinuteNumber(ticks[|ticks| - 1].now);
                 && (e.id in last ==> last[e.id] <= m * MINUTE)
                 && (FiresAt(e, m) ==> e.id in last && last[e.id] == m * MINUTE)
  {
    hide FiresAt, Due;
    if ticks != [] {
      var n := |ticks| - 1;
      var front := ticks[..n];
      FiresOncePerMinute(front, e);
      var m := MinuteNumber(ticks[n].now);
      var rows := ticks[n].rows;
      UniqueIsOwn(rows, e);
      TickIsLocal(LastFiredAfter(front), rows, m * MINUTE, e);
      DueMeans(e, m);
      if n > 0 {
        assert ticks[n - 1].now <= ticks[n].now;
        assert front[n - 1] == ticks[n - 1];
        MinuteMonotone(ticks[n - 1].now, ticks[n].now);
      }
    }
  }

  lemma UniqueIsOwn(rows: seq<Task>, e: Task)
    requires UniqueIds(rows) && e in rows
    ensures OwnRow(rows, e)
  {
    forall r | r in rows && r.id == e.id
      ensures r == e
    {
      var i :| 0 <= i < |rows| && rows[i] == r;
      var j :| 0 <= j < |rows| && rows[j] == e;
      assert i == j;
    }
  }

  lemma MinuteMonotone(t: Time, u: Time)
    requires t <= u
    ensures MinuteNumber(t) <= MinuteNumber(u)
  {}

  /** The matching minutes from lo to hi. */
  function MatchingMinutes(e: Task, lo: int, hi: int): seq<int>
    decreases hi - lo
  {
    if lo > hi then []
    else (if FiresAt(e, lo) then [lo] else []) + MatchingMinutes(e, lo + 1, hi)
  }

  lemma {:induction false} MatchingSplit(e: Task, lo: int, mid: int, hi: int)
    requires lo <= mid + 1 && mid <= hi
    ensures MatchingMinutes(e, lo, hi) == MatchingMinutes(e, lo, mid) + MatchingMinutes(e, mid + 1, hi)
    decreases mid - lo
  {
    hide FiresAt;
    if lo <= mid {
      MatchingSplit(e, lo + 1, mid, hi);
    }
  }

  /** At least one pass falls into every minute. */
  predicate EveryMinute(ticks: seq<TickEvent>) {
    forall i | 0 < i < |ticks| :: MinuteNumber(ticks[i].now) <= MinuteNumber(ticks[i - 1].now) + 1
  }

  lemma {:induction false} NoMinuteMissed(ticks: seq<TickEvent>, e: Task)
    requires ticks != [] && RunOf(e, ticks) && EveryMinute(ticks)
    ensures MinuteNumber(ticks[0].now) <= MinuteNumber(ticks[|ticks| - 1].now)
    ensures DueMinutes(ticks, e) == MatchingMinutes(e, MinuteNumber(ticks[0].now), MinuteNumber(ticks[|ticks| - 1].now))
  {
    hide FiresAt;
    var n := |ticks| - 1;
    if n == 0 {
      assert ticks[..0] == [];
    } else {
      var front := ticks[..n];
      NoMinuteMissed(front, e);
      var a, b, m := MinuteNumber(ticks[0].now), MinuteNumber(ticks[n - 1].now), MinuteNumber(ticks[n].now);
      assert front[n - 1] == ticks[n - 1];
      MinuteMonotone(ticks[n - 1].now, ticks[n].now);
      if m == b + 1 {
        MatchingSplit(e, a, b, m);
      }
    }
  }

  // ---- against the search -----------------------------------------------------------------------------

  /** The fire times the search yields when it is restarted from each answer, up to minute hi. */
  function IterateNext(s: CronSpec, from: int, hi: int): seq<int>
    requires s.Valid()
    decreases hi - from
  {
    NextFireIsNext(s, from * MINUTE);
    match NextFire(s, from * MINUTE)
    case Some(c) => if MinuteNumber(c) <= hi then [MinuteNumber(c)] + IterateNext(s, MinuteNumber(c), hi) else []
    case None => []
  }

  /** The search is restarted at minute u: where it starts, or where it last fired. */
  ghost predicate RestartsAt(s: CronSpec, from: int, u: int)
    requires s.Valid()
  {
    u == from || (from < u && MinuteMatches(s, u))
  }

  /** The search comes back empty from a restart although a minute up to hi still fires. */
  ghost predicate Stops(s: CronSpec, from: int, hi: int)
    requires s.Valid()
  {
    exists u, v :: RestartsAt(s, from, u) && u < v <= hi && MinuteMatches(s, v) && NextFire(s, u * MINUTE).None?
  }

  /** The expression names no date but 29 February, a restart falls into a leap gap with nothing left to fire
      that day, and a minute up to hi still fires. */
  ghost predicate GivesUpBefore(s: CronSpec, from: int, hi: int)
    requires s.Valid()
  {
    LeapOnly(s)
    && exists u, v :: RestartsAt(s, from, u) && u < v <= hi && MinuteMatches(s, v)
                      && InLeapGap(DayOf(u), HORIZON_DAYS - 1) && !FiresLaterToday(s, u * MINUTE)
  }

  lemma StopsInLeapGaps(s: CronSpec, from: int, hi: int)
    requires Parsed(s)
    ensures Stops(s, from, hi) <==> GivesUpBefore(s, from, hi)
  {
    hide MinuteMatches, NextFire, LeapOnly, CanFire, InLeapGap, FiresLaterToday, RestartsAt;
    CanFireMeans(s);
    if Stops(s, from, hi) {
      var u, v :| RestartsAt(s, from, u) && u < v <= hi && MinuteMatches(s, v) && NextFire(s, u * MINUTE).None?;
      assert MinuteNumber(u * MINUTE) == u;
      SearchGivesUp(s, u * MINUTE);
    }
    if GivesUpBefore(s, from, hi) {
      var u, v :| RestartsAt(s, from, u) && u < v <= hi && MinuteMatches(s, v)
                  && InLeapGap(DayOf(u), HORIZON_DAYS - 1) && !FiresLaterToday(s, u * MINUTE);
      assert MinuteNumber(u * MINUTE) == u;
      SearchGivesUp(s, u * MINUTE);
    }
  }

  lemma {:induction false} SkipQuietMinutes(e: Task, lo: int, c: int, hi: int)
    requires lo <= c <= hi + 1 && forall u | lo <= u < c :: !FiresAt(e, u)
    ensures MatchingMinutes(e, lo, hi) == MatchingMinutes(e, c, hi)
    decreases c - lo
  {
    hide FiresAt;
    if lo < c {
      SkipQuietMinutes(e, lo + 1, c, hi);
    }
  }

  lemma {:induction false} ListsUntilStop(e: Task, from: int, hi: int)
    requires SpecOf(e.cron).Ok? && from <= hi
    ensures var s := SpecOf(e.cron).value;
            IterateNext(s, from, hi) == MatchingMinutes(e, from + 1, hi) <==> !Stops(s, from, hi)
    decreases hi - from
  {
    hide SpecOf, MinuteMatches, NextFire;
    var s := SpecOf(e.cron).value;
    NextFireIsNext(s, from * MINUTE);
    assert MinuteNumber(from * MINUTE) == from;
    match NextFire(s, from * MINUTE) {
      case None =>
        if v :| from < v <= hi && MinuteMatches(s, v) {
          MatchIsListed(e, from + 1, v, hi);
        } else {
          SkipQuietMinutes(e, from + 1, hi + 1, hi);
        }
      case Some(t) =>
        var c := MinuteNumber(t);
        if c <= hi {
          SkipQuietMinutes(e, from + 1, c, hi);
          ListsUntilStop(e, c, hi);
          StopsLater(s, from, c, hi);
          var rest, rest' := IterateNext(s, c, hi), MatchingMinutes(e, c + 1, hi);
          assert IterateNext(s, from, hi) == [c] + rest && MatchingMinutes(e, c, hi) == [c] + rest';
          assert ([c] + rest)[1..] == rest && ([c] + rest')[1..] == rest';
        } else {
          SkipQuietMinutes(e, from + 1, hi + 1, hi);
        }
    }
  }

  lemma {:induction false} MatchIsListed(e: Task, lo: int, v: int, hi: int)
    requires lo <= v <= hi
    ensures FiresAt(e, v) ==> MatchingMinutes(e, lo, hi) != []
    decreases v - lo
  {
    hide FiresAt;
    if lo < v {
      MatchIsListed(e, lo + 1, v, hi);
    }
  }

  lemma StopsLater(s: CronSpec, from: int, c: int, hi: int)
    requires s.Valid() && from < c
    ensures MinuteMatches(s, c) && (forall u | from < u < c :: !MinuteMatches(s, u)) && NextFire(s, from * MINUTE).Some?
            ==> Stops(s, from, hi) == Stops(s, c, hi)
  {
    hide MinuteMatches, NextFire;
  }

  /** Iterating the search lists the matching minutes exactly when no restart falls into a leap gap that
      hides a fire. */
  lemma IterationListsMatches(e: Task, from: int, hi: int)
    requires SpecOf(e.cron).Ok? && from <= hi
    ensures var s := SpecOf(e.cron).value;
            IterateNext(s, from, hi) == MatchingMinutes(e, from + 1, hi) <==> !GivesUpBefore(s, from, hi)
  {
    hide SpecOf, Stops, GivesUpBefore, Parsed;
    ListsUntilStop(e, from, hi);
    SpecIsParsed(e.cron);
    StopsInLeapGaps(SpecOf(e.cron).value, from, hi);
  }

  /** The scheduler and the search agree: while a task stays enabled and unchanged and every minute gets
      a pass, the minutes in which it fires are the answers of nextAfter, restarted from each answer,
      from the minute before the first pass to the last, exactly when no restart falls into a leap gap that
      hides a fire. */
  lemma {:induction false} SchedulerFollowsSearch(ticks: seq<TickEvent>, e: Task)
    requires ticks != [] && RunOf(e, ticks) && EveryMinute(ticks)
    ensures SpecOf(e.cron).Ok? ==>
              var s := SpecOf(e.cron).value;
              var first, last := MinuteNumber(ticks[0].now), MinuteNumber(ticks[|ticks| - 1].now);
              FireMinutes(ticks, e.id) == IterateNext(s, first - 1, last) <==> !GivesUpBefore(s, first - 1, last)
  {
    hide SpecOf, GivesUpBefore;
    FiresOncePerMinute(ticks, e);
    NoMinuteMissed(ticks, e);
    if SpecOf(e.cron).Ok? {
      IterationListsMatches(e, MinuteNumber(ticks[0].now) - 1, MinuteNumber(ticks[|ticks| - 1].now));
    }
  }

  /** A task whose expression names any date besides 29 February always fires what the search lists. */
  lemma {:induction false} OnlyLeapDaysGiveUp(ticks: seq<TickEvent>, e: Task)
    requires ticks != [] && RunOf(e, ticks) && EveryMinute(ticks)
    ensures SpecOf(e.cron).Ok? && !LeapOnly(SpecOf(e.cron).value) ==>
              var s := SpecOf(e.cron).value;
              var first, last := MinuteNumber(ticks[0].now), MinuteNumber(ticks[|ticks| - 1].now);
              FireMinutes(ticks, e.id) == IterateNext(s, first - 1, last)
  {
    hide SpecOf, LeapOnly;
    SchedulerFollowsSearch(ticks, e);
  }

  /** A task whose expression does not parse never fires. */
  lemma BadExpressionNeverFires(ticks: seq<TickEvent>, e: Task)
    requires RunOf(e, ticks) && SpecOf(e.cron).Err?
    ensures FireMinutes(ticks, e.id) == []
  {
    FiresOncePerMinute(ticks, e);
    NothingDue(ticks, e);
  }

  lemma {:induction false} NothingDue(ticks: seq<TickEvent>, e: Task)
    requires SpecOf(e.cron).Err?
    ensures DueMinutes(ticks, e) == []
  {
    if ticks != [] {
      NothingDue(ticks[..|ticks| - 1], e);
    }
  }
}
