/** The per-address sliding-window limiter of ratelimit.go. */
module RateLimiter {
  import opened Wrappers

  type Ip = string
  type Time = int
  type Hits = map<Ip, seq<Time>>

  const SWEEP_THRESHOLD := 10000

  // ---- what one request does, on values ---------------------------------------------------------------

  /** The hits that lie less than a window before now, in order. */
  function Recent(ts: seq<Time>, now: Time, window: int): (r: seq<Time>)
    ensures |r| <= |ts|
  {
    if ts == [] then []
    else
      var n := |ts| - 1;
      Recent(ts[..n], now, window) + (if now - ts[n] < window then [ts[n]] else [])
  }

  predicate Stale(ts: seq<Time>, now: Time, window: int) {
    ts == [] || now - ts[|ts| - 1] > window
  }

  lemma StaleMeans(ts: seq<Time>, now: Time, window: int)
    ensures Stale(ts, now, window) == (|ts| == 0 || now - ts[|ts| - 1] > window)
  {}

  function Swept(h: Hits, now: Time, window: int): Hits {
    map k | k in h && !Stale(h[k], now, window) :: h[k]
  }

  function Of(h: Hits, ip: Ip): seq<Time> {
    if ip in h then h[ip] else []
  }

  datatype Outcome = Outcome(hits: Hits, ok: bool)

  function Decide(h: Hits, ip: Ip, now: Time, max: int, window: int): Outcome {
    var h1 := if |h| > SWEEP_THRESHOLD then Swept(h, now, window) else h;
    var kept := Recent(Of(h1, ip), now, window);
    if |kept| >= max then Outcome(h1[ip := kept], false) else Outcome(h1[ip := kept + [now]], true)
  }

  // ---- the limiter, in place ----------------------------------------------------------------------------

  /** A slice header: the first len elements of a backing array. */
  datatype Slice = Slice(arr: array<Time>, len: nat)

  /** kept := hits[:0], then append(kept, t) for each hit that is still recent: reads and writes
      share the backing array, the write position never overtaking the read position. */
  method CompactInPlace(s: Slice, now: Time, window: int) returns (kept: Slice)
    requires s.len <= s.arr.Length
    modifies s.arr
    ensures kept.arr == s.arr && kept.len <= s.len
    ensures s.arr[..kept.len] == Recent(old(s.arr[..s.len]), now, window)
  {
    var a := s.arr;
    var k := 0;
    ghost var before := a[..s.len];
    for i := 0 to s.len
      invariant k <= i
      invariant a[..k] == Recent(before[..i], now, window)
      invariant a[i..s.len] == before[i..]
    {
      assert before[..i + 1][..i] == before[..i];
      var t := a[i];
      assert t == a[i..s.len][0];
      if now - t < window {
        a[k] := t;
        k := k + 1;
      }
      assert a[i + 1..s.len] == before[i..][1..];
    }
    assert before[..s.len] == before;
    kept := Slice(a, k);
  }

  class Limiter {
    const max: int
    const window: int
    var hits: map<Ip, Slice>
    ghost var lists: Hits  // what the slices hold

    ghost function Arrays(): set<array<Time>>
      reads this
    {
      set ip | ip in hits :: hits[ip].arr
    }

    /** Every address has its own backing array. */
    ghost predicate Valid()
      reads this, Arrays()
    {
      && hits.Keys == lists.Keys
      && (forall ip | ip in hits :: hits[ip].len <= hits[ip].arr.Length && lists[ip] == hits[ip].arr[..hits[ip].len])
      && (forall ip, ip' | ip in hits && ip' in hits && ip != ip' :: hits[ip].arr != hits[ip'].arr)
    }

    constructor (max: int, window: int)
      ensures Valid() && lists == map[] && this.max == max && this.window == window
    {
      this.max, this.window := max, window;
      hits, lists := map[], map[];
    }

    /** The sweep loop: drops the addresses whose last hit is older than a window. */
    method DropStale(now: Time)
      requires Valid()
      modifies this`hits
      ensures hits.Keys == (set k | k in old(hits) && !Stale(lists[k], now, window))
      ensures forall k | k in hits :: hits[k] == old(hits)[k]
    {
      hide Stale;
      var todo := hits.Keys;
      while todo != {}
        invariant todo <= hits.Keys <= lists.Keys
        invariant forall k | k in hits :: hits[k] == old(hits)[k]
        invariant forall k | k in lists && k !in todo :: k in hits <==> !Stale(lists[k], now, window)
        decreases todo
      {
        var k :| k in todo;
        var s := hits[k];
        StaleMeans(lists[k], now, window);
        if s.len == 0 || now - s.arr[s.len - 1] > window {
          hits := hits - {k};
        }
        todo := todo - {k};
      }
    }

    method Sweep(now: Time)
      requires Valid()
      modifies this
      ensures Valid() && Arrays() <= old(Arrays())
      ensures lists == Swept(old(lists), now, window)
    {
      hide Stale;
      DropStale(now);
      lists := Swept(lists, now, window);
    }

    /** hits[ip] = s, for a slice whose array no other address uses. */
    method Store(ip: Ip, s: Slice, ghost list: seq<Time>)
      requires s.len <= s.arr.Length && s.arr[..s.len] == list
      requires hits.Keys == lists.Keys
      requires forall k | k in hits && k != ip :: hits[k].arr != s.arr
      requires forall k | k in hits && k != ip ::
                 hits[k].len <= hits[k].arr.Length && lists[k] == hits[k].arr[..hits[k].len]
      requires forall k, k' | k in hits && k' in hits && k != k' :: hits[k].arr != hits[k'].arr
      modifies this
      ensures Valid() && hits == old(hits)[ip := s] && lists == old(lists)[ip := list]
    {
      hits, lists := hits[ip := s], lists[ip := list];
    }

    /** Compacts the list of ip and appends the request if it passes. */
    method Count(ip: Ip, now: Time) returns (ok: bool)
      requires Valid()
      modifies this, Arrays()
      ensures Valid() && fresh(Arrays() - old(Arrays()))
      ensures var recent := Recent(Of(old(lists), ip), now, window);
              ok == (|recent| < max) && lists == old(lists)[ip := if ok then recent + [now] else recent]
    {
      hide Recent;
      var kept: Slice;
      if ip in hits {
        kept := CompactInPlace(hits[ip], now, window);
      } else {
        var empty := new Time[0];
        kept := Slice(empty, 0);
        NothingRecent(now, window);
      }
      ghost var list := Recent(Of(old(lists), ip), now, window);
      if kept.len >= max {
        Store(ip, kept, list);
        return false;
      }
      var grown := Append(kept, now);
      Store(ip, grown, list + [now]);
      ok := true;
    }

    /** One request: the decision and the new hit lists. */
    method Allow(ip: Ip, now: Time) returns (ok: bool)
      requires Valid()
      modifies this, Arrays()
      ensures Valid() && fresh(Arrays() - old(Arrays()))
      ensures Outcome(lists, ok) == Decide(old(lists), ip, now, max, window)
    {
      hide Recent, Swept;
      assert |hits| == |lists| by { assert hits.Keys == lists.Keys; }
      if |hits| > SWEEP_THRESHOLD {
        Sweep(now);
      }
      ok := Count(ip, now);
    }
  }

  lemma NothingRecent(now: Time, window: int)
    ensures Recent([], now, window) == []
  {}

  /** append(s, t): in place while the backing array has room, else into a larger copy. */
  method Append(s: Slice, t: Time) returns (r: Slice)
    requires s.len <= s.arr.Length
    modifies s.arr
    ensures r.len == s.len + 1 <= r.arr.Length && (r.arr == s.arr || fresh(r.arr))
    ensures r.arr[..r.len] == old(s.arr[..s.len]) + [t]
  {
    if s.len < s.arr.Length {
      s.arr[s.len] := t;
      return Slice(s.arr, s.len + 1);
    }
    var a := new Time[2 * s.len + 1];
    for i := 0 to s.len
      invariant a[..i] == s.arr[..i]
      invariant s.arr[..s.len] == old(s.arr[..s.len])
    {
      a[i] := s.arr[i];
    }
    a[s.len] := t;
    r := Slice(a, s.len + 1);
  }

  // ---- against the plain history of accepted requests ------------------------------------------------------

  datatype Request = Request(ip: Ip, now: Time)

  predicate Ordered(reqs: seq<Request>) {
    forall i, j | 0 <= i <= j < |reqs| :: reqs[i].now <= reqs[j].now
  }

  /** The limiter's hit lists after a run. */
  function HitsAfter(reqs: seq<Request>, max: int, window: int): Hits {
    if reqs == [] then map[]
    else
      var n := |reqs| - 1;
      Decide(HitsAfter(reqs[..n], max, window), reqs[n].ip, reqs[n].now, max, window).hits
  }

  /** The plain definition: an address may pass when fewer than max of its requests that passed
      lie within the window. The whole history is kept. */
  function History(reqs: seq<Request>, ip: Ip, max: int, window: int): seq<Time> {
    if reqs == [] then []
    else
      var n := |reqs| - 1;
      var past := History(reqs[..n], ip, max, window);
      if reqs[n].ip == ip && |Recent(past, reqs[n].now, window)| < max then past + [reqs[n].now] else past
  }

  predicate Sorted(ts: seq<Time>) {
    forall i, j | 0 <= i <= j < |ts| :: ts[i] <= ts[j]
  }

  lemma {:induction false} RecentTwice(ts: seq<Time>, a: Time, b: Time, window: int)
    requires a <= b
    ensures Recent(Recent(ts, a, window), b, window) == Recent(ts, b, window)
  {
    hide Recent;
    if ts == [] {
      NothingRecent(a, window);
      NothingRecent(b, window);
    } else {
      var n := |ts| - 1;
      RecentTwice(ts[..n], a, b, window);
      assert ts == ts[..n] + [ts[n]];
      RecentAppend(ts[..n], ts[n], a, window);
      RecentAppend(ts[..n], ts[n], b, window);
      var front := Recent(ts[..n], a, window);
      RecentAppend(front, ts[n], b, window);
      assert front + [] == front;
    }
  }

  lemma RecentAppend(ts: seq<Time>, t: Time, now: Time, window: int)
    ensures Recent(ts + [t], now, window) == Recent(ts, now, window) + (if now - t < window then [t] else [])
  {
    assert (ts + [t])[..|ts|] == ts;
  }

  lemma {:induction false} RecentSorted(ts: seq<Time>, now: Time, window: int, hi: Time)
    requires Sorted(ts) && forall i | 0 <= i < |ts| :: ts[i] <= hi
    ensures Sorted(Recent(ts, now, window))
    ensures forall i | 0 <= i < |Recent(ts, now, window)| :: Recent(ts, now, window)[i] <= hi
  {
    if ts != [] {
      var n := |ts| - 1;
      RecentSorted(ts[..n], now, window, ts[n]);
    }
  }

  lemma {:induction false} StaleHasNoRecent(ts: seq<Time>, now: Time, later: Time, window: int)
    requires Sorted(ts) && Stale(ts, now, window) && now <= later
    ensures Recent(ts, later, window) == []
  {
    if ts != [] {
      var n := |ts| - 1;
      if n > 0 { assert ts[n - 1] <= ts[n]; }
      StaleHasNoRecent(ts[..n], now, later, window);
    }
  }

  /** For every window that ends at `last` or later, the stored list serves as well as the whole past. */
  ghost predicate GoodFrom(stored: seq<Time>, past: seq<Time>, last: Time, window: int) {
    forall t | t >= last :: Recent(stored, t, window) == Recent(past, t, window)
  }

  /** A list as the invariant wants it: in order, not later than `last`, and good for every later window. */
  ghost predicate Faithful(stored: seq<Time>, past: seq<Time>, last: Time, window: int) {
    Sorted(stored) && (forall i | 0 <= i < |stored| :: stored[i] <= last) && GoodFrom(stored, past, last, window)
  }

  lemma SweepOne(h: Hits, past: seq<Time>, ip: Ip, last: Time, now: Time, window: int)
    requires Faithful(Of(h, ip), past, last, window) && last <= now
    ensures Faithful(Of(Swept(h, now, window), ip), past, now, window)
  {
    var s := Of(Swept(h, now, window), ip);
    forall t | t >= now ensures Recent(s, t, window) == Recent(past, t, window) {
      if ip in h && Stale(h[ip], now, window) {
        StaleHasNoRecent(h[ip], now, t, window);
      }
    }
  }

  /** Compacting a faithful list, and appending the request if it passes, keeps it faithful. */
  lemma KeptFaithful(stored: seq<Time>, past: seq<Time>, last: Time, now: Time, max: int, window: int)
    requires Faithful(stored, past, last, window) && last <= now
    ensures var kept := Recent(stored, now, window);
            && kept == Recent(past, now, window)
            && Faithful(if |kept| < max then kept + [now] else kept,
                        if |kept| < max then past + [now] else past, now, window)
  {
    hide Recent, GoodFrom;
    var kept := Recent(stored, now, window);
    RecentSorted(stored, now, window, last);
    LaterGood(stored, past, last, now, window);
    KeptGood(stored, past, now, max, window);
  }

  lemma LaterGood(stored: seq<Time>, past: seq<Time>, last: Time, now: Time, window: int)
    requires GoodFrom(stored, past, last, window) && last <= now
    ensures GoodFrom(stored, past, now, window)
  {}

  lemma KeptGood(stored: seq<Time>, past: seq<Time>, now: Time, max: int, window: int)
    requires GoodFrom(stored, past, now, window)
    ensures var kept := Recent(stored, now, window);
            && kept == Recent(past, now, window)
            && GoodFrom(if |kept| < max then kept + [now] else kept,
                        if |kept| < max then past + [now] else past, now, window)
  {
    hide Recent;
    var kept := Recent(stored, now, window);
    var s := if |kept| < max then kept + [now] else kept;
    var past' := if |kept| < max then past + [now] else past;
    forall t | t >= now ensures Recent(s, t, window) == Recent(past', t, window) {
      RecentTwice(stored, now, t, window);
      RecentAppend(kept, now, t, window);
      RecentAppend(past, now, t, window);
    }
  }

  /** One request keeps the list of an address faithful to its history, and decides by it. */
  lemma DecideFaithful(h: Hits, past: seq<Time>, ip: Ip, who: Ip, last: Time, now: Time, max: int, window: int)
    requires Faithful(Of(h, ip), past, last, window) && last <= now
    ensures var o := Decide(h, who, now, max, window);
            var pass := |Recent(past, now, window)| < max;
            && (who == ip ==> o.ok == pass)
            && Faithful(Of(o.hits, ip), if who == ip && pass then past + [now] else past, now, window)
  {
    hide Swept, Faithful, Recent;
    var h1 := if |h| > SWEEP_THRESHOLD then Swept(h, now, window) else h;
    if |h| > SWEEP_THRESHOLD {
      SweepOne(h, past, ip, last, now, window);
    } else {
      LaterFaithful(Of(h, ip), past, last, now, window);
    }
    KeptFaithful(Of(h1, ip), past, now, now, max, window);
  }

  lemma LaterFaithful(stored: seq<Time>, past: seq<Time>, last: Time, now: Time, window: int)
    requires Faithful(stored, past, last, window) && last <= now
    ensures Faithful(stored, past, now, window)
  {}

  lemma {:induction false} HitsFollowHistory(reqs: seq<Request>, ip: Ip, max: int, window: int, now: Time)
    requires Ordered(reqs) && (reqs != [] ==> reqs[|reqs| - 1].now <= now)
    ensures Faithful(Of(HitsAfter(reqs, max, window), ip), History(reqs, ip, max, window), now, window)
  {
    if reqs != [] {
      var n := |reqs| - 1;
      var front := reqs[..n];
      HitsFollowHistory(front, ip, max, window, reqs[n].now);
      DecideFaithful(HitsAfter(front, max, window), History(front, ip, max, window), ip, reqs[n].ip, reqs[n].now,
          reqs[n].now, max, window);
      LaterFaithful(Of(HitsAfter(reqs, max, window), ip), History(reqs, ip, max, window), reqs[n].now, now, window);
    }
  }

  /** After every run with clocks in order, the compacted and swept lists give the answer that counting
      all accepted requests of the address within the window gives. */
  lemma AnswersByHistory(reqs: seq<Request>, r: Request, max: int, window: int)
    requires Ordered(reqs + [r])
    ensures Decide(HitsAfter(reqs, max, window), r.ip, r.now, max, window).ok
            <==> |Recent(History(reqs, r.ip, max, window), r.now, window)| < max
  {
    var all := reqs + [r];
    assert forall i | 0 <= i < |reqs| :: all[i] == reqs[i];
    assert all[|reqs|] == r;
    HitsFollowHistory(reqs, r.ip, max, window, r.now);
    DecideFaithful(HitsAfter(reqs, max, window), History(reqs, r.ip, max, window), r.ip, r.ip, r.now, r.now, max,
        window);
  }

  // ---- the bound --------------------------------------------------------------------------------------------------

  /** How many of the times lie in the half-open interval of length window that starts at x. */
  function Within(ts: seq<Time>, x: Time, window: int): nat {
    if ts == [] then 0
    else Within(ts[..|ts| - 1], x, window) + (if x <= ts[|ts| - 1] < x + window then 1 else 0)
  }

  lemma {:induction false} IntervalIsRecent(ts: seq<Time>, x: Time, now: Time, window: int)
    requires now < x + window
    ensures Within(ts, x, window) <= |Recent(ts, now, window)|
  {
    if ts != [] {
      IntervalIsRecent(ts[..|ts| - 1], x, now, window);
    }
  }

  /** Whatever the order of the clocks, no interval of one window's length holds more than max
      accepted requests of one address. */
  lemma {:induction false} NeverMoreThanMax(reqs: seq<Request>, ip: Ip, max: int, window: int, x: Time)
    ensures Within(History(reqs, ip, max, window), x, window) <= (if max > 0 then max else 0)
  {
    if reqs != [] {
      var n := |reqs| - 1;
      var past := History(reqs[..n], ip, max, window);
      NeverMoreThanMax(reqs[..n], ip, max, window, x);
      var now := reqs[n].now;
      assert (past + [now])[..|past|] == past;
      if x <= now < x + window {
        IntervalIsRecent(past, x, now, window);
      }
    }
  }

  /** The requests the limiter itself lets through are the history. */
  function Accepted(reqs: seq<Request>, ip: Ip, max: int, window: int): seq<Time> {
    if reqs == [] then []
    else
      var n := |reqs| - 1;
      var past := Accepted(reqs[..n], ip, max, window);
      if reqs[n].ip == ip && Decide(HitsAfter(reqs[..n], max, window), ip, reqs[n].now, max, window).ok
      then past + [reqs[n].now] else past
  }

  lemma {:induction false} AcceptedIsHistory(reqs: seq<Request>, ip: Ip, max: int, window: int)
    requires Ordered(reqs)
    ensures Accepted(reqs, ip, max, window) == History(reqs, ip, max, window)
  {
    if reqs != [] {
      var n := |reqs| - 1;
      AcceptedIsHistory(reqs[..n], ip, max, window);
      assert reqs == reqs[..n] + [reqs[n]];
      if reqs[n].ip == ip {
        AnswersByHistory(reqs[..n], reqs[n], max, window);
      }
    }
  }

  /** So the limiter keeps its promise: at most max accepted requests of an address in any window. */
  lemma LimiterBound(reqs: seq<Request>, ip: Ip, max: int, window: int, x: Time)
    requires Ordered(reqs) && max >= 0
    ensures Within(Accepted(reqs, ip, max, window), x, window) <= max
  {
    AcceptedIsHistory(reqs, ip, max, window);
    NeverMoreThanMax(reqs, ip, max, window, x);
  }

  lemma {:induction false} RecentIsWithin(ts: seq<Time>, now: Time, window: int)
    requires AtMost(ts, now)
    ensures |Recent(ts, now, window)| == Within(ts, now - window + 1, window)
  {
    if ts != [] {
      RecentIsWithin(ts[..|ts| - 1], now, window);
    }
  }

  lemma {:induction false} HistoryUpTo(reqs: seq<Request>, ip: Ip, max: int, window: int, now: Time)
    requires forall i | 0 <= i < |reqs| :: reqs[i].now <= now
    ensures AtMost(History(reqs, ip, max, window), now)
  {
    hide Recent;
    if reqs != [] {
      HistoryUpTo(reqs[..|reqs| - 1], ip, max, window, now);
    }
  }

  /** And it refuses nobody without need: a request passes exactly when fewer than max requests of its address
      passed in the window that ends with it. */
  lemma {:induction false} AllowedExactly(reqs: seq<Request>, r: Request, max: int, window: int)
    requires Ordered(reqs + [r])
    ensures Decide(HitsAfter(reqs, max, window), r.ip, r.now, max, window).ok
            <==> Within(Accepted(reqs, r.ip, max, window), r.now - window + 1, window) < max
  {
    hide Decide, HitsAfter, Recent, Within, Accepted, History;
    var all := reqs + [r];
    assert all[|reqs|] == r && forall i | 0 <= i < |reqs| :: all[i] == reqs[i];
    AnswersByHistory(reqs, r, max, window);
    AcceptedIsHistory(reqs, r.ip, max, window);
    HistoryUpTo(reqs, r.ip, max, window, r.now);
    RecentIsWithin(History(reqs, r.ip, max, window), r.now, window);
  }

  /** The lists of other addresses stay as they are, up to ten thousand addresses; beyond that a request drops
      those whose last hit is more than a window old. */
  lemma SweepsWhenLarge(h: Hits, ip: Ip, now: Time, max: int, window: int, k: Ip)
    requires k != ip
    ensures var h' := Decide(h, ip, now, max, window).hits;
            && (k in h' ==> k in h && h'[k] == h[k])
            && (k in h ==> (k !in h' <==> |h| > 10_000 && (h[k] == [] || h[k][|h[k]| - 1] + window < now)))
  {
    hide Recent;
  }

  // ---- clocks out of order -----------------------------------------------------------------------------------

  /** The clock is read before the lock: a request may be decided after one that read it up to d later. */
  predicate Drift(reqs: seq<Request>, d: nat) {
    forall i, j | 0 <= i <= j < |reqs| :: reqs[i].now <= reqs[j].now + d
  }

  function Max(a: int, b: int): int { if a < b then b else a }

  /** The latest clock of a run. */
  function Latest(reqs: seq<Request>): Time
    requires reqs != []
  {
    var n := |reqs| - 1;
    if n == 0 then reqs[0].now else Max(Latest(reqs[..n]), reqs[n].now)
  }

  /** How many of the times are x or later. */
  function Since(ts: seq<Time>, x: Time): nat {
    if ts == [] then 0 else Since(ts[..|ts| - 1], x) + if ts[|ts| - 1] >= x then 1 else 0
  }

  predicate NearlySorted(ts: seq<Time>, d: nat) {
    forall i, j | 0 <= i <= j < |ts| :: ts[i] <= ts[j] + d
  }

  predicate AtMost(ts: seq<Time>, hi: Time) {
    forall i | 0 <= i < |ts| :: ts[i] <= hi
  }

  /** The stored list is in order up to d, not later than `latest`, and holds every accepted request that can
      still matter. */
  ghost predicate Covers(stored: seq<Time>, past: seq<Time>, latest: Time, d: nat, window: int) {
    NearlySorted(stored, d) && AtMost(stored, latest)
    && forall x | x > latest + d - window :: Since(stored, x) == Since(past, x)
  }

  lemma SinceAppend(ts: seq<Time>, t: Time, x: Time)
    ensures Since(ts + [t], x) == Since(ts, x) + if t >= x then 1 else 0
  {
    assert (ts + [t])[..|ts|] == ts;
  }

  lemma {:induction false} SinceRecent(ts: seq<Time>, now: Time, window: int, x: Time)
    requires x > now - window
    ensures Since(Recent(ts, now, window), x) == Since(ts, x) <= |Recent(ts, now, window)|
  {
    if ts != [] {
      var n := |ts| - 1;
      var front := Recent(ts[..n], now, window);
      SinceRecent(ts[..n], now, window, x);
      SinceAppend(front, ts[n], x);
      assert Recent(ts, now, window) == if now - ts[n] < window then front + [ts[n]] else front;
    }
  }

  lemma {:induction false} NoneSince(ts: seq<Time>, x: Time)
    requires forall i | 0 <= i < |ts| :: ts[i] < x
    ensures Since(ts, x) == 0
  {
    if ts != [] {
      NoneSince(ts[..|ts| - 1], x);
    }
  }

  lemma {:induction false} RecentNearly(ts: seq<Time>, now: Time, window: int, d: nat, hi: Time)
    requires NearlySorted(ts, d) && AtMost(ts, hi)
    ensures NearlySorted(Recent(ts, now, window), d) && AtMost(Recent(ts, now, window), hi)
  {
    hide NearlySorted, AtMost;
    NearlyFront(ts, d, hi);
    if ts != [] {
      var n := |ts| - 1;
      var front := Recent(ts[..n], now, window);
      RecentNearly(ts[..n], now, window, d, hi);
      RecentNearly(ts[..n], now, window, d, ts[n] + d);
      NearlyAppend(front, ts[n], d, hi);
      assert Recent(ts, now, window) == if now - ts[n] < window then front + [ts[n]] else front;
    }
  }

  lemma NearlyFront(ts: seq<Time>, d: nat, hi: Time)
    requires NearlySorted(ts, d) && AtMost(ts, hi)
    ensures ts != [] ==>
              var n := |ts| - 1;
              NearlySorted(ts[..n], d) && AtMost(ts[..n], hi) && AtMost(ts[..n], ts[n] + d) && ts[n] <= hi
    ensures ts == [] ==> NearlySorted([], d) && AtMost([], hi)
  {}

  lemma NearlyAppend(ts: seq<Time>, t: Time, d: nat, hi: Time)
    requires NearlySorted(ts, d) && AtMost(ts, t + d) && AtMost(ts, hi) && t <= hi
    ensures NearlySorted(ts + [t], d) && AtMost(ts + [t], hi)
  {}

  lemma SweepCovers(h: Hits, past: seq<Time>, ip: Ip, latest: Time, now: Time, d: nat, window: int)
    requires Covers(Of(h, ip), past, latest, d, window)
    ensures Covers(Of(Swept(h, now, window), ip), past, Max(latest, now), d, window)
  {
    hide Since;
    var s := Of(h, ip);
    if ip in h && Stale(s, now, window) {
      forall x | x > Max(latest, now) + d - window
        ensures Since([], x) == Since(past, x)
      {
        NoneSince(s, x);
        NoneSince([], x);
      }
    }
  }

  lemma CompactCovers(stored: seq<Time>, past: seq<Time>, latest: Time, now: Time, d: nat, max: int, window: int)
    requires Covers(stored, past, latest, d, window) && now <= latest && latest <= now + d
    ensures var kept := Recent(stored, now, window);
            && Covers(kept, past, latest, d, window) && Covers(kept + [now], past + [now], latest, d, window)
            && forall x | x > latest + d - window :: Since(past, x) <= |kept|
  {
    hide Since, Recent;
    var kept := Recent(stored, now, window);
    RecentNearly(stored, now, window, d, latest);
    forall x | x > latest + d - window
      ensures Since(kept, x) == Since(past, x) <= |kept|
      ensures Since(kept + [now], x) == Since(past + [now], x)
    {
      SinceRecent(stored, now, window, x);
      SinceAppend(kept, now, x);
      SinceAppend(past, now, x);
    }
  }

  lemma LaterCovers(stored: seq<Time>, past: seq<Time>, latest: Time, later: Time, d: nat, window: int)
    requires Covers(stored, past, latest, d, window) && latest <= later
    ensures Covers(stored, past, later, d, window)
  {}

  /** One request, decided with whatever clock within the drift. */
  lemma DecideCovers(h: Hits, past: seq<Time>, ip: Ip, who: Ip, latest: Time, now: Time, d: nat, max: int, window: int)
    requires Covers(Of(h, ip), past, latest, d, window) && latest <= now + d
    ensures var o := Decide(h, who, now, max, window);
            var past' := if who == ip && o.ok then past + [now] else past;
            && Covers(Of(o.hits, ip), past', Max(latest, now), d, window)
            && (who == ip && o.ok ==> forall x | x > Max(latest, now) + d - window :: Since(past, x) < max)
  {
    hide Swept, Covers, Recent, Since;
    var h1 := if |h| > SWEEP_THRESHOLD then Swept(h, now, window) else h;
    if |h| > SWEEP_THRESHOLD {
      SweepCovers(h, past, ip, latest, now, d, window);
    } else {
      LaterCovers(Of(h, ip), past, latest, Max(latest, now), d, window);
    }
    CompactCovers(Of(h1, ip), past, Max(latest, now), now, d, max, window);
  }

  lemma {:induction false} HitsCover(reqs: seq<Request>, ip: Ip, max: int, window: int, d: nat)
    requires reqs != [] && Drift(reqs, d)
    ensures Covers(Of(HitsAfter(reqs, max, window), ip), Accepted(reqs, ip, max, window), Latest(reqs), d, window)
    ensures var n := |reqs| - 1;
            var past := Accepted(reqs[..n], ip, max, window);
            past != Accepted(reqs, ip, max, window) ==>
              forall x | x > Latest(reqs) + d - window :: Since(past, x) < max
  {
    hide Covers, Decide, Since;
    var n := |reqs| - 1;
    var front, now := reqs[..n], reqs[n].now;
    var latest := if n == 0 then now else Latest(front);
    if n == 0 {
      NothingCovers(latest, d, window);
    } else {
      HitsCover(front, ip, max, window, d);
      LatestWithin(front, reqs, d);
    }
    DecideCovers(HitsAfter(front, max, window), Accepted(front, ip, max, window), ip, reqs[n].ip, latest, now, d,
                 max, window);
  }

  lemma NothingCovers(latest: Time, d: nat, window: int)
    ensures Covers([], [], latest, d, window)
  {}

  lemma {:induction false} LatestWithin(front: seq<Request>, reqs: seq<Request>, d: nat)
    requires front != [] && |front| < |reqs| && front == reqs[..|front|] && Drift(reqs, d)
    ensures Latest(front) <= reqs[|reqs| - 1].now + d
  {
    var n := |front| - 1;
    assert front[n] == reqs[n];
    if n > 0 {
      assert front[..n] == reqs[..n];
      LatestWithin(front[..n], reqs, d);
    }
  }

  lemma {:induction false} LatestIsLater(reqs: seq<Request>)
    requires reqs != []
    ensures reqs[|reqs| - 1].now <= Latest(reqs)
  {}

  lemma {:induction false} WithinSince(ts: seq<Time>, x: Time, window: int)
    ensures Within(ts, x, window) <= Since(ts, x)
  {
    if ts != [] {
      WithinSince(ts[..|ts| - 1], x, window);
    }
  }

  /** With clocks at most d apart, no interval that is shorter than a window by 2d holds more than max accepted
      requests of an address: d because a later decision may look from an earlier clock, and d because a sweep
      judges an address by its last hit. */
  lemma {:induction false} DriftBound(reqs: seq<Request>, ip: Ip, max: int, window: int, d: nat, x: Time)
    requires Drift(reqs, d) && max >= 0
    ensures Within(Accepted(reqs, ip, max, window), x, window - 2 * d) <= max
  {
    hide Decide, Covers, Since, Latest;
    if reqs != [] {
      var n := |reqs| - 1;
      var front, now := reqs[..n], reqs[n].now;
      DriftBound(front, ip, max, window, d, x);
      var past := Accepted(front, ip, max, window);
      if past != Accepted(reqs, ip, max, window) {
        HitsCover(reqs, ip, max, window, d);
        LatestIsLater(reqs);
        LatestClose(reqs, d);
        WithinSince(past, x, window - 2 * d);
        assert (past + [now])[..|past|] == past;
      }
    }
  }

  lemma LatestClose(reqs: seq<Request>, d: nat)
    requires reqs != [] && Drift(reqs, d)
    ensures Latest(reqs) <= reqs[|reqs| - 1].now + d
  {
    if |reqs| > 1 {
      LatestWithin(reqs[..|reqs| - 1], reqs, d);
    }
  }

  /** A sweep can forget a hit that a later decision, looking from an earlier clock, would still count. */
  lemma SweepForgets(ip: Ip, d: nat, window: int)
    requires 0 < d < window
    ensures NearlySorted([d, 0], d)
    ensures Of(Swept(map[ip := [d, 0]], window + 1, window), ip) == []
    ensures d in Recent([d, 0], window + 1 - d, window)
  {
    assert [d, 0][..1] == [d] && [d][..0] == [];
    RecentAppend([d], 0, window + 1 - d, window);
    RecentAppend([], d, window + 1 - d, window);
    assert [] + [d] == [d] && [d] + [0] == [d, 0];
  }

  lemma NextRequest(reqs: seq<Request>, ip: Ip, now: Time, stored: seq<Time>, past: seq<Time>)
    requires |HitsAfter(reqs, 2, 10)| <= 1 && Of(HitsAfter(reqs, 2, 10), ip) == stored
    requires Accepted(reqs, ip, 2, 10) == past && |Recent(stored, now, 10)| < 2
    requires HitsAfter(reqs, 2, 10).Keys <= {ip}
    ensures var all := reqs + [Request(ip, now)];
            && Of(HitsAfter(all, 2, 10), ip) == Recent(stored, now, 10) + [now]
            && Accepted(all, ip, 2, 10) == past + [now]
            && HitsAfter(all, 2, 10).Keys == {ip} && |HitsAfter(all, 2, 10)| == 1
  {
    hide Recent;
    var all := reqs + [Request(ip, now)];
    assert all[..|reqs|] == reqs;
    var h' := HitsAfter(all, 2, 10);
    assert h'.Keys == {ip};
    assert |h'| == |h'.Keys|;
  }

  /** Out of order the full window does not keep the bound: of the clocks 0, 1, 11 and 2, with at most two
      requests in ten, all four pass, three of them within ten. */
  lemma OutOfOrder(ip: Ip)
    ensures var reqs := [Request(ip, 0), Request(ip, 1), Request(ip, 11), Request(ip, 2)];
            Accepted(reqs, ip, 2, 10) == [0, 1, 11, 2] && Within([0, 1, 11, 2], 0, 10) == 3
  {
    hide HitsAfter, Accepted, Within;
    var two := [Request(ip, 0), Request(ip, 1)];
    FirstTwo(ip, two);
    LastTwo(ip, two);
    assert two + [Request(ip, 11)] + [Request(ip, 2)]
        == [Request(ip, 0), Request(ip, 1), Request(ip, 11), Request(ip, 2)];
    FourTimes([0, 1, 11, 2]);
  }

  lemma FirstTwo(ip: Ip, two: seq<Request>)
    requires two == [Request(ip, 0), Request(ip, 1)]
    ensures Accepted(two, ip, 2, 10) == [0, 1] && Of(HitsAfter(two, 2, 10), ip) == [0, 1]
    ensures HitsAfter(two, 2, 10).Keys == {ip} && |HitsAfter(two, 2, 10)| == 1
  {
    hide HitsAfter, Accepted, Recent;
    NoRequest(ip);
    TwoTimes();
    NextRequest([], ip, 0, [], []);
    assert [] + [Request(ip, 0)] == [Request(ip, 0)];
    NextRequest([Request(ip, 0)], ip, 1, [0], [0]);
    assert [Request(ip, 0)] + [Request(ip, 1)] == two;
  }

  lemma LastTwo(ip: Ip, two: seq<Request>)
    requires Accepted(two, ip, 2, 10) == [0, 1] && Of(HitsAfter(two, 2, 10), ip) == [0, 1]
    requires HitsAfter(two, 2, 10).Keys == {ip} && |HitsAfter(two, 2, 10)| == 1
    ensures Accepted(two + [Request(ip, 11)] + [Request(ip, 2)], ip, 2, 10) == [0, 1, 11, 2]
  {
    hide HitsAfter, Accepted, Recent;
    TwoTimes();
    NextRequest(two, ip, 11, [0, 1], [0, 1]);
    NextRequest(two + [Request(ip, 11)], ip, 2, [11], [0, 1, 11]);
  }

  lemma NoRequest(ip: Ip)
    ensures HitsAfter([], 2, 10) == map[] && Accepted([], ip, 2, 10) == []
  {}

  lemma OneTime(t: Time, now: Time)
    ensures Recent([t], now, 10) == if now - t < 10 then [t] else []
  {
    assert [t][..0] == [];
  }

  lemma TwoTimes()
    ensures Recent([], 0, 10) == [] && Recent([0], 1, 10) == [0] && Recent([0, 1], 11, 10) == []
    ensures Recent([11], 2, 10) == [11]
  {
    OneTime(0, 1);
    OneTime(0, 11);
    OneTime(11, 2);
    assert [0, 1][..1] == [0];
  }

  lemma FourTimes(ts: seq<Time>)
    requires ts == [0, 1, 11, 2]
    ensures Within(ts, 0, 10) == 3
  {
    assert ts[..3] == [0, 1, 11] && ts[..3][..2] == [0, 1] && ts[..3][..2][..1] == [0] && ts[..3][..2][..1][..0] == [];
    assert Within(ts[..3][..2][..1], 0, 10) == 1;
    assert Within(ts[..3][..2], 0, 10) == 2;
    assert Within(ts[..3], 0, 10) == 2;
  }
}
