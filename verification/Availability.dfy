/**
 * `suggest_meeting_times` of backend/src/ai_employee/domain/calendar_availability.py over the working
 * hours of backend/src/ai_employee/domain/settings.py: the single forward sweep returns the first
 * slots that a direct search over every grid point and every buffered event would return. Dates are
 * days since 1970-01-01, wall times microseconds since that midnight.
 */
module Availability {
  import opened BusyTime
  import opened Prelude
  import opened Zones
  import opened Settings

  /** One grid start and the wall time at which its working interval closes. */
  datatype Point = Point(wall: int, close: int)

  datatype Query = Query(zone: Zone, duration: int, earliest: int)

  // ---------------------------------------------------------------- the simple form

  function MinutesFrom(minute: int, end: int, grid: int): seq<int>
    requires grid > 0
    decreases end - minute
  {
    if minute >= end then [] else [minute] + MinutesFrom(minute + grid, end, grid)
  }

  /** `_grid_points`. */
  function GridPoints(day: int, w: WorkingInterval, grid: int): seq<Point>
    requires grid > 0
  {
    var minutes := MinutesFrom((w.start + grid - 1) / grid * grid, w.end, grid);
    seq(|minutes|, i requires 0 <= i < |minutes| =>
      Point(day * DAY + minutes[i] * MINUTE, day * DAY + w.end * MINUTE))
  }

  function DayPoints(day: int, intervals: seq<WorkingInterval>, grid: int): seq<Point>
    requires grid > 0
  {
    if intervals == [] then []
    else DayPoints(day, intervals[..|intervals| - 1], grid) + GridPoints(day, intervals[|intervals| - 1], grid)
  }

  function AllPoints(hours: WorkingHours, first: int, horizon: nat, grid: int): seq<Point>
    requires hours.Valid() && grid > 0
  {
    if horizon == 0 then []
    else
      var last := first + horizon - 1;
      AllPoints(hours, first, horizon - 1, grid) + DayPoints(last, hours.For(last), grid)
  }

  /** The slot a grid point offers: inside its interval, both ends shown, no offset change, not too early. */
  function Slot(q: Query, p: Point): Option<Interval> {
    var start, end := q.zone.Resolve(p.wall), q.zone.Resolve(p.wall + q.duration);
    if p.wall + q.duration <= p.close && start.Some? && end.Some?
       && q.zone.WallOffset(p.wall, false) == q.zone.WallOffset(p.wall + q.duration, false)
       && q.earliest <= start.value
    then Some(Interval(start.value, end.value)) else None
  }

  ghost predicate Free(q: Query, busy: seq<Interval>, p: Point) {
    Slot(q, p).Some? && !OverlapsAny(Slot(q, p).value, busy)
  }

  /** Every point in order, kept when its slot overlaps no buffered event. */
  ghost function FreeSlots(q: Query, busy: seq<Interval>, points: seq<Point>): seq<Interval> {
    if points == [] then []
    else
      var p := points[|points| - 1];
      FreeSlots(q, busy, points[..|points| - 1]) + if Free(q, busy, p) then [Slot(q, p).value] else []
  }

  function First<T>(limit: nat, s: seq<T>): seq<T> { if |s| <= limit then s else s[..limit] }

  // ---------------------------------------------------------------- what is asked for

  /** A start on the grid of a working interval of one of the days searched. */
  ghost predicate IsStart(hours: WorkingHours, first: int, horizon: nat, grid: int, p: Point)
    requires hours.Valid() && grid > 0
  {
    exists d, i :: first <= d < first + horizon && 0 <= i < |hours.For(d)| && OnGrid(d, hours.For(d)[i], grid, p)
  }

  ghost predicate OnGrid(day: int, w: WorkingInterval, grid: int, p: Point)
    requires grid > 0
  {
    exists m :: w.start <= m < w.end && m % grid == 0 && p == Point(day * DAY + m * MINUTE, day * DAY + w.end * MINUTE)
  }

  ghost predicate EarliestShowing(z: Zone, wall: int, instant: int) {
    z.Local(instant) == wall && forall v :: v < instant ==> z.Local(v) != wall
  }

  /**
   * The meeting `s` begins and ends when the clock first shows the wall times asked for, lasts exactly
   * the duration, ends by the close of its working interval and does not begin too early.
   */
  ghost predicate Offers(q: Query, p: Point, s: Interval) {
    && EarliestShowing(q.zone, p.wall, s.start) && EarliestShowing(q.zone, p.wall + q.duration, s.end)
    && s.end - s.start == q.duration
    && p.wall + q.duration <= p.close && q.earliest <= s.start
  }

  /** Some grid start offers `s`, and no busy event comes within the buffer of it. */
  ghost predicate Suggestible(q: Query, hours: WorkingHours, horizon: nat, grid: int,
                              events: seq<Event>, buffer: int, s: Interval)
    requires hours.Valid() && grid > 0
  {
    && (exists p :: IsStart(hours, q.zone.LocalDate(q.earliest), horizon, grid, p) && Offers(q, p, s))
    && forall e :: e in events ==> !Blocks(e, buffer, s)
  }

  /** The first `limit` of everything suggestible, by start. */
  ghost predicate FirstSuggestions(q: Query, hours: WorkingHours, horizon: nat, grid: int,
                                   events: seq<Event>, buffer: int, limit: nat, s: seq<Interval>)
    requires hours.Valid() && grid > 0
  {
    && |s| <= limit
    && (forall i :: 0 <= i < |s| ==> Suggestible(q, hours, horizon, grid, events, buffer, s[i]))
    && (forall i, j :: 0 <= i < j < |s| ==> s[i].start < s[j].start)
    && (forall x :: Suggestible(q, hours, horizon, grid, events, buffer, x) && x !in s ==>
          |s| == limit && forall i :: 0 <= i < |s| ==> s[i].start < x.start)
  }

  /** A point has the slot `s` exactly when it offers it. */
  lemma SlotIsExact(q: Query, p: Point, s: Interval)
    requires q.zone.Valid()
    ensures Slot(q, p) == Some(s) <==> Offers(q, p, s)
  {
    hide Zone.Resolve, Zone.WallOffset, Zone.Local, Zone.Valid, EarliestShowing;
    EarliestIsResolved(q.zone, p.wall, s.start);
    EarliestIsResolved(q.zone, p.wall + q.duration, s.end);
    LengthIsOffset(q.zone, p.wall, p.wall + q.duration);
  }

  /** The real length is the wall length exactly when the offset does not change. */
  lemma LengthIsOffset(z: Zone, a: int, b: int)
    ensures z.Resolve(a).Some? && z.Resolve(b).Some? ==>
      (z.Resolve(b).value - z.Resolve(a).value == b - a <==> z.WallOffset(a, false) == z.WallOffset(b, false))
  {
    hide Zone.Local, Zone.Fold, Zone.WallOffset;
  }

  lemma EarliestIsResolved(z: Zone, wall: int, instant: int)
    requires z.Valid()
    ensures EarliestShowing(z, wall, instant) <==> z.Resolve(wall) == Some(instant)
  {
    ResolveIsEarliest(z, wall);
    if EarliestShowing(z, wall, instant) {
      var u := z.Resolve(wall).value;
      assert !(u < instant) && !(instant < u);
    }
  }

  // ---------------------------------------------------------------- grid points, exactly and in order

  lemma {:induction false} MinutesAreMultiples(minute: int, end: int, grid: int)
    requires grid > 0 && minute % grid == 0
    ensures forall m :: m in MinutesFrom(minute, end, grid) <==> minute <= m < end && m % grid == 0
    ensures forall i, j :: 0 <= i < j < |MinutesFrom(minute, end, grid)| ==>
      MinutesFrom(minute, end, grid)[i] < MinutesFrom(minute, end, grid)[j]
    decreases end - minute
  {
    if minute < end {
      NextMultiple(minute, grid);
      MinutesAreMultiples(minute + grid, end, grid);
      var rest := MinutesFrom(minute + grid, end, grid);
      forall m
        ensures m in MinutesFrom(minute, end, grid) <==> minute <= m < end && m % grid == 0
      {
        assert m in MinutesFrom(minute, end, grid) <==> m == minute || m in rest;
        if minute < m < minute + grid {
          BetweenMultiples(minute, m, grid);
        }
      }
      forall i, j | 0 <= i < j < |MinutesFrom(minute, end, grid)|
        ensures MinutesFrom(minute, end, grid)[i] < MinutesFrom(minute, end, grid)[j]
      {
        assert rest[j - 1] in rest;
      }
    }
  }

  lemma MultipleOf(k: int, grid: int)
    requires grid > 0
    ensures (grid * k) % grid == 0
  {
    var q, r := (grid * k) / grid, (grid * k) % grid;
    assert grid * k == grid * q + r;
    Scaled(grid, k, q);
  }

  /** Distinct multiples lie at least one grid step apart. */
  lemma Scaled(grid: int, k: int, q: int)
    requires grid > 0
    ensures k < q ==> grid * k + grid <= grid * q
    ensures q < k ==> grid * q + grid <= grid * k
  {
    if k < q {
      NonNegativeProduct(grid, q - k - 1);
      assert grid * q == grid * k + grid + grid * (q - k - 1);
    } else if q < k {
      NonNegativeProduct(grid, k - q - 1);
      assert grid * k == grid * q + grid + grid * (k - q - 1);
    }
  }

  lemma NonNegativeProduct(a: int, b: int)
    requires a >= 0 && b >= 0
    ensures a * b >= 0
  {
  }

  lemma NextMultiple(m: int, grid: int)
    requires grid > 0 && m % grid == 0
    ensures (m + grid) % grid == 0 && (m - grid) % grid == 0
  {
    var k := m / grid;
    assert m == grid * k;
    assert grid * (k + 1) == m + grid && grid * (k - 1) == m - grid;
    MultipleOf(k + 1, grid);
    MultipleOf(k - 1, grid);
  }

  lemma BetweenMultiples(low: int, m: int, grid: int)
    requires grid > 0 && low % grid == 0 && low < m < low + grid
    ensures m % grid != 0
  {
    assert low == grid * (low / grid) && m == grid * (m / grid) + m % grid;
    Scaled(grid, low / grid, m / grid);
  }

  /** A working interval offers exactly the multiples of the grid from its start up to before its end. */
  lemma GridPointsAreExact(day: int, w: WorkingInterval, grid: int)
    requires grid > 0
    ensures forall p :: p in GridPoints(day, w, grid) <==>
      exists m :: w.start <= m < w.end && m % grid == 0 &&
        p == Point(day * DAY + m * MINUTE, day * DAY + w.end * MINUTE)
    ensures PointsAscend(GridPoints(day, w, grid))
  {
    var first := (w.start + grid - 1) / grid * grid;
    FirstMultiple(w.start, grid);
    MinutesAreMultiples(first, w.end, grid);
    var minutes, points := MinutesFrom(first, w.end, grid), GridPoints(day, w, grid);
    forall p
      ensures p in points <==>
        exists m :: w.start <= m < w.end && m % grid == 0 &&
          p == Point(day * DAY + m * MINUTE, day * DAY + w.end * MINUTE)
    {
      if p in points {
        var i :| 0 <= i < |points| && points[i] == p;
        assert minutes[i] in minutes;
      }
      if m :| w.start <= m < w.end && m % grid == 0 && p == Point(day * DAY + m * MINUTE, day * DAY + w.end * MINUTE) {
        if m < first {
          BelowFirstMultiple(w.start, m, grid);
        }
        assert m in minutes;
        var i :| 0 <= i < |minutes| && minutes[i] == m;
        assert points[i] == p;
      }
    }
  }

  lemma FirstMultiple(start: int, grid: int)
    requires grid > 0
    ensures var first := (start + grid - 1) / grid * grid; start <= first < start + grid && first % grid == 0
  {
    var k := (start + grid - 1) / grid;
    assert start + grid - 1 == grid * k + (start + grid - 1) % grid;
    assert k * grid == grid * k;
    MultipleOf(k, grid);
  }

  lemma BelowFirstMultiple(start: int, m: int, grid: int)
    requires grid > 0 && start <= m && m % grid == 0
    ensures m >= (start + grid - 1) / grid * grid
  {
    var first := (start + grid - 1) / grid * grid;
    FirstMultiple(start, grid);
    if m < first {
      NextMultiple(first, grid);
      BetweenMultiples(first - grid, m, grid);
    }
  }

  /** The points of the days searched are exactly the grid starts of their working intervals. */
  lemma StartsAreExact(hours: WorkingHours, first: int, horizon: nat, grid: int, p: Point)
    requires hours.Valid() && grid > 0
    ensures p in AllPoints(hours, first, horizon, grid) <==> IsStart(hours, first, horizon, grid, p)
  {
    AllPointsAreExact(hours, first, horizon, grid);
    hide AllPoints, DayPoints, GridPoints, OnGrid, WorkingHours.For;
    forall d | first <= d < first + horizon
      ensures p in DayPoints(d, hours.For(d), grid) <==>
        exists i :: 0 <= i < |hours.For(d)| && OnGrid(d, hours.For(d)[i], grid, p)
    {
      DayStartsAreExact(hours, d, grid, p);
    }
  }

  lemma DayStartsAreExact(hours: WorkingHours, d: int, grid: int, p: Point)
    requires hours.Valid() && grid > 0
    ensures p in DayPoints(d, hours.For(d), grid) <==>
      exists i :: 0 <= i < |hours.For(d)| && OnGrid(d, hours.For(d)[i], grid, p)
  {
    DayPointsAreExact(d, hours.For(d), grid);
    hide DayPoints;
    forall i | 0 <= i < |hours.For(d)|
      ensures p in GridPoints(d, hours.For(d)[i], grid) <==> OnGrid(d, hours.For(d)[i], grid, p)
    {
      GridPointsAreExact(d, hours.For(d)[i], grid);
    }
  }

  ghost predicate PointsAscend(points: seq<Point>) {
    forall i, j :: 0 <= i < j < |points| ==> points[i].wall < points[j].wall
  }

  /** One day's points ascend, stay inside the day, and come from exactly that day's intervals. */
  lemma {:induction false} DayPointsAreExact(day: int, intervals: seq<WorkingInterval>, grid: int)
    requires grid > 0
    requires forall i :: 0 <= i < |intervals| ==> 0 <= intervals[i].start < intervals[i].end < 1440
    requires forall i, j :: 0 <= i < j < |intervals| ==> intervals[i].end <= intervals[j].start
    ensures PointsAscend(DayPoints(day, intervals, grid))
    ensures forall p :: p in DayPoints(day, intervals, grid) ==> day * DAY <= p.wall < (day + 1) * DAY
    ensures forall p :: p in DayPoints(day, intervals, grid) <==>
      exists i :: 0 <= i < |intervals| && p in GridPoints(day, intervals[i], grid)
    ensures forall p :: p in DayPoints(day, intervals, grid) ==>
      p.wall < day * DAY + intervals[|intervals| - 1].end * MINUTE
  {
    if intervals != [] {
      var front, last := intervals[..|intervals| - 1], intervals[|intervals| - 1];
      DayPointsAreExact(day, front, grid);
      GridPointsAreExact(day, last, grid);
      var before, after := DayPoints(day, front, grid), GridPoints(day, last, grid);
      forall p | p in after
        ensures day * DAY + last.start * MINUTE <= p.wall < day * DAY + last.end * MINUTE
      {
        var m :| last.start <= m < last.end && m % grid == 0 &&
          p == Point(day * DAY + m * MINUTE, day * DAY + last.end * MINUTE);
      }
      forall p | p in before
        ensures p.wall < day * DAY + last.start * MINUTE
      {
      }
      forall i, j | 0 <= i < j < |before + after|
        ensures (before + after)[i].wall < (before + after)[j].wall
      {
        if i < |before| <= j {
          assert before[i] in before && after[j - |before|] in after;
        }
      }
      forall p
        ensures p in before + after <==> exists i :: 0 <= i < |intervals| && p in GridPoints(day, intervals[i], grid)
      {
        if p in before {
          var i :| 0 <= i < |front| && p in GridPoints(day, front[i], grid);
          assert p in GridPoints(day, intervals[i], grid);
        }
        if p in after {
          assert p in GridPoints(day, intervals[|intervals| - 1], grid);
        }
        if i :| 0 <= i < |intervals| && p in GridPoints(day, intervals[i], grid) {
          if i < |front| {
            assert p in GridPoints(day, front[i], grid);
          }
        }
      }
    }
  }

  /** All points ascend, and they are exactly the grid points of the working days searched. */
  lemma {:induction false} AllPointsAreExact(hours: WorkingHours, first: int, horizon: nat, grid: int)
    requires hours.Valid() && grid > 0
    ensures PointsAscend(AllPoints(hours, first, horizon, grid))
    ensures forall p :: p in AllPoints(hours, first, horizon, grid) ==> p.wall < (first + horizon) * DAY
    ensures forall p :: p in AllPoints(hours, first, horizon, grid) <==>
      exists d :: first <= d < first + horizon && p in DayPoints(d, hours.For(d), grid)
  {
    hide DayPoints;
    if horizon > 0 {
      var day := first + horizon - 1;
      AllPointsAreExact(hours, first, horizon - 1, grid);
      DayPointsAreExact(day, hours.For(day), grid);
      var before: seq<Point>, after: seq<Point> := AllPoints(hours, first, horizon - 1, grid),
        DayPoints(day, hours.For(day), grid);
      forall i, j | 0 <= i < j < |before + after|
        ensures (before + after)[i].wall < (before + after)[j].wall
      {
        if i < |before| <= j {
          assert before[i] in before && after[j - |before|] in after;
        }
      }
      forall p
        ensures p in before + after <==> exists d ::
          first <= d < first + horizon && p in DayPoints(d, hours.For(d), grid)
      {
        if p in before {
          var d :| first <= d < first + horizon - 1 && p in DayPoints(d, hours.For(d), grid);
        }
      }
    }
  }

  // ---------------------------------------------------------------- the naive list

  lemma FreeSlotsGrow(q: Query, busy: seq<Interval>, points: seq<Point>, p: Point)
    ensures FreeSlots(q, busy, points + [p]) ==
      FreeSlots(q, busy, points) + if Free(q, busy, p) then [Slot(q, p).value] else []
  {
    assert (points + [p])[..|points|] == points;
  }

  lemma {:induction false} FreeSlotsPrefix(q: Query, busy: seq<Interval>, points: seq<Point>, n: nat)
    requires n <= |points|
    ensures FreeSlots(q, busy, points[..n]) <= FreeSlots(q, busy, points)
  {
    if n == |points| {
      assert points[..n] == points;
    } else {
      FreeSlotsPrefix(q, busy, points[..|points| - 1], n);
      assert points[..|points| - 1][..n] == points[..n];
    }
  }

  /** Later points offer strictly later slots, and every slot is proper. */
  lemma SlotsAscend(q: Query, p: Point, later: Point)
    requires q.zone.Valid() && q.duration > 0
    requires p.wall < later.wall && Slot(q, p).Some? && Slot(q, later).Some?
    ensures Slot(q, p).value.start < Slot(q, later).value.start
  {
    ResolveIsStrictlyIncreasing(q.zone, p.wall, later.wall);
  }

  /** A slot lasts exactly as long as its wall time says, and both its ends show the wall times asked for. */
  lemma SlotIsReal(q: Query, p: Point)
    requires q.zone.Valid() && q.duration > 0 && Slot(q, p).Some?
    ensures var s := Slot(q, p).value;
      && s.Proper() && s.end - s.start == q.duration && q.earliest <= s.start
      && q.zone.Local(s.start) == p.wall && q.zone.Local(s.end) == p.wall + q.duration <= p.close
  {
  }

  /** The naive list holds exactly the free slots of the points, in strictly ascending order. */
  lemma {:induction false} FreeSlotsAreExact(q: Query, busy: seq<Interval>, points: seq<Point>)
    requires q.zone.Valid() && q.duration > 0 && PointsAscend(points)
    ensures forall s :: s in FreeSlots(q, busy, points) <==>
      exists p :: p in points && Free(q, busy, p) && s == Slot(q, p).value
    ensures forall i, j :: 0 <= i < j < |FreeSlots(q, busy, points)| ==>
      FreeSlots(q, busy, points)[i].start < FreeSlots(q, busy, points)[j].start
  {
    hide Slot, OverlapsAny;
    if points != [] {
      var front, last := points[..|points| - 1], points[|points| - 1];
      FreeSlotsAreExact(q, busy, front);
      assert points == front + [last];
      var before, all := FreeSlots(q, busy, front), FreeSlots(q, busy, points);
      if Free(q, busy, last) {
        forall s | s in before
          ensures s.start < Slot(q, last).value.start
        {
          var p :| p in front && Free(q, busy, p) && s == Slot(q, p).value;
          SlotsAscend(q, p, last);
        }
        assert forall i :: 0 <= i < |before| ==> before[i] in before;
      }
      forall s
        ensures s in all <==> exists p :: p in points && Free(q, busy, p) && s == Slot(q, p).value
      {
        if s in before {
          var p :| p in front && Free(q, busy, p) && s == Slot(q, p).value;
          assert p in points;
        }
        if p :| p in points && Free(q, busy, p) && s == Slot(q, p).value {
          assert p in front || p == last;
        }
      }
    }
  }

  /** The naive list over all points holds exactly what is suggestible. */
  lemma FreeSlotsAreSuggestible(q: Query, hours: WorkingHours, horizon: nat, grid: int,
                                events: seq<Event>, buffer: int, s: Interval)
    requires q.zone.Valid() && q.duration > 0 && hours.Valid() && grid > 0
    ensures s in FreeSlots(q, Buffered(events, buffer), AllPoints(hours, q.zone.LocalDate(q.earliest), horizon, grid))
      <==> Suggestible(q, hours, horizon, grid, events, buffer, s)
  {
    var first, busy := q.zone.LocalDate(q.earliest), Buffered(events, buffer);
    var points := AllPoints(hours, first, horizon, grid);
    assert PointsAscend(points) by { AllPointsAreExact(hours, first, horizon, grid); }
    hide AllPoints, IsStart, Offers, OverlapsAny, Blocks, Buffered, PointsAscend;
    FreeSlotsHoldOffered(q, busy, points, s);
    BufferedIsExact(events, buffer, s);
    PointsOffer(q, hours, horizon, grid, s);
    hide FreeSlots, Slot;
  }

  lemma FreeSlotsHoldOffered(q: Query, busy: seq<Interval>, points: seq<Point>, s: Interval)
    requires q.zone.Valid() && q.duration > 0 && PointsAscend(points)
    ensures s in FreeSlots(q, busy, points) <==>
      !OverlapsAny(s, busy) && exists p :: p in points && Slot(q, p) == Some(s)
  {
    FreeSlotsAreExact(q, busy, points);
    hide FreeSlots, Slot, OverlapsAny, PointsAscend;
    if !OverlapsAny(s, busy) && exists p :: p in points && Slot(q, p) == Some(s) {
      var p :| p in points && Slot(q, p) == Some(s);
      assert Free(q, busy, p);
    }
  }

  lemma PointsOffer(q: Query, hours: WorkingHours, horizon: nat, grid: int, s: Interval)
    requires q.zone.Valid() && hours.Valid() && grid > 0
    ensures var first := q.zone.LocalDate(q.earliest);
      (exists p :: p in AllPoints(hours, first, horizon, grid) && Slot(q, p) == Some(s)) <==>
      (exists p :: IsStart(hours, first, horizon, grid, p) && Offers(q, p, s))
  {
    hide AllPoints, Slot, IsStart, Offers;
    var first := q.zone.LocalDate(q.earliest);
    forall p
      ensures p in AllPoints(hours, first, horizon, grid) <==> IsStart(hours, first, horizon, grid, p)
      ensures Slot(q, p) == Some(s) <==> Offers(q, p, s)
    {
      StartsAreExact(hours, first, horizon, grid, p);
      SlotIsExact(q, p, s);
    }
  }

  /** The first of the naive list are the first of everything suggestible. */
  lemma FirstAreSuggestions(q: Query, hours: WorkingHours, horizon: nat, grid: int,
                            events: seq<Event>, buffer: int, limit: nat)
    requires q.zone.Valid() && q.duration > 0 && hours.Valid() && grid > 0
    ensures var points := AllPoints(hours, q.zone.LocalDate(q.earliest), horizon, grid);
      FirstSuggestions(q, hours, horizon, grid, events, buffer, limit,
                       First(limit, FreeSlots(q, Buffered(events, buffer), points)))
  {
    var first, busy := q.zone.LocalDate(q.earliest), Buffered(events, buffer);
    var points := AllPoints(hours, first, horizon, grid);
    var all := FreeSlots(q, busy, points);
    assert PointsAscend(points) by { AllPointsAreExact(hours, first, horizon, grid); }
    assert StartsAscend(all) by { FreeSlotsAreExact(q, busy, points); }
    hide FreeSlots, AllPoints, Suggestible, Buffered, PointsAscend, StartsAscend, First;
    forall s
      ensures s in all <==> Suggestible(q, hours, horizon, grid, events, buffer, s)
    {
      FreeSlotsAreSuggestible(q, hours, horizon, grid, events, buffer, s);
    }
    FirstOfAscending(limit, all);
  }

  ghost predicate StartsAscend(s: seq<Interval>) {
    forall i, j :: 0 <= i < j < |s| ==> s[i].start < s[j].start
  }

  lemma FirstOfAscending(limit: nat, all: seq<Interval>)
    requires StartsAscend(all)
    ensures var s := First(limit, all);
      && |s| <= limit && (forall i :: 0 <= i < |s| ==> s[i] in all)
      && (forall i, j :: 0 <= i < j < |s| ==> s[i].start < s[j].start)
      && (forall x :: x in all && x !in s ==> |s| == limit && forall i :: 0 <= i < |s| ==> s[i].start < x.start)
  {
    var s := First(limit, all);
    assert forall k :: 0 <= k < |s| ==> all[k] == s[k] && all[k] in s;
  }

  // ---------------------------------------------------------------- the sweep

  /** What the sweep knows after the first `n` points; `mark` is the last point whose slot moved the pointer. */
  ghost predicate Swept(q: Query, busy: seq<Interval>, merged: seq<Interval>, points: seq<Point>, n: nat,
                        candidates: seq<Interval>, seen: set<Interval>, index: nat, mark: Option<nat>)
  {
    && n <= |points| && index <= |merged|
    && candidates == FreeSlots(q, busy, points[..n])
    && (mark.None? ==> index == 0 && seen == {})
    && (mark.Some? ==> mark.value < n && Reached(q, merged, points[mark.value], seen, index))
  }

  /** The pointer and the seen set have not gone past the slot of this point. */
  ghost predicate Reached(q: Query, merged: seq<Interval>, p: Point, seen: set<Interval>, index: nat)
    requires index <= |merged|
  {
    && Slot(q, p).Some?
    && (index > 0 ==> merged[index - 1].end <= Slot(q, p).value.start)
    && (forall s :: s in seen ==> s.start <= Slot(q, p).value.start)
  }

  ghost predicate Merges(merged: seq<Interval>, busy: seq<Interval>) {
    && AllProper(merged) && AllProper(busy) && Separated(merged)
    && forall t :: Covers(merged, t) <==> Covers(busy, t)
  }

  lemma SweptSkips(q: Query, busy: seq<Interval>, merged: seq<Interval>, points: seq<Point>, n: nat,
                   candidates: seq<Interval>, seen: set<Interval>, index: nat, mark: Option<nat>)
    requires Swept(q, busy, merged, points, n, candidates, seen, index, mark)
    requires n < |points| && Slot(q, points[n]).None?
    ensures Swept(q, busy, merged, points, n + 1, candidates, seen, index, mark)
  {
    hide Slot, Reached;
    assert points[..n + 1] == points[..n] + [points[n]];
    FreeSlotsGrow(q, busy, points[..n], points[n]);
  }

  /** A slot never offered before, judged by the pointer alone, joins exactly when it is free. */
  lemma SweptAdvances(q: Query, busy: seq<Interval>, merged: seq<Interval>, points: seq<Point>, n: nat,
                      candidates: seq<Interval>, seen: set<Interval>, index: nat, mark: Option<nat>,
                      slot: Interval, index': nat)
    requires q.zone.Valid() && q.duration > 0 && PointsAscend(points) && Merges(merged, busy)
    requires Swept(q, busy, merged, points, n, candidates, seen, index, mark)
    requires n < |points| && Slot(q, points[n]) == Some(slot)
    requires index' <= |merged| && (index' > 0 ==> merged[index' - 1].end <= slot.start)
    requires index' < |merged| ==> slot.start < merged[index'].end
    ensures slot !in seen
    ensures if index' < |merged| && merged[index'].start < slot.end
      then Swept(q, busy, merged, points, n + 1, candidates, seen, index', Some(n))
      else Swept(q, busy, merged, points, n + 1, candidates + [slot], seen + {slot}, index', Some(n))
  {
    hide Slot, FreeSlots, OverlapsAny, Covers, Zone.Local, Zone.Valid;
    assert points[..n + 1] == points[..n] + [points[n]];
    FreeSlotsGrow(q, busy, points[..n], points[n]);
    SlotIsReal(q, points[n]);
    if mark.Some? {
      SlotsAscend(q, points[mark.value], points[n]);
    }
    PointerDecides(slot, merged, busy, index');
  }

  /** The checks of the loop body before the busy intervals come in, in the order of the code. */
  method Offer(q: Query, p: Point) returns (slot: Option<Interval>)
    ensures slot == Slot(q, p)
  {
    var wallEnd := p.wall + q.duration;
    if wallEnd > p.close {
      return None;
    }
    var start, end := q.zone.Resolve(p.wall), q.zone.Resolve(wallEnd);
    if start.None? || end.None? {
      return None;
    }
    if q.zone.WallOffset(p.wall, false) != q.zone.WallOffset(wallEnd, false) {
      return None;
    }
    if end.value - start.value != q.duration {
      return None;
    }
    if start.value < q.earliest {
      return None;
    }
    slot := Some(Interval(start.value, end.value));
  }

  /** The body of the innermost loop. */
  method Consider(q: Query, merged: seq<Interval>, p: Point, candidates: seq<Interval>, seen: set<Interval>, index: nat,
                  ghost busy: seq<Interval>, ghost points: seq<Point>, ghost n: nat, ghost mark: Option<nat>)
    returns (candidates': seq<Interval>, seen': set<Interval>, index': nat, ghost mark': Option<nat>)
    requires q.zone.Valid() && q.duration > 0 && PointsAscend(points) && Merges(merged, busy)
    requires n < |points| && points[n] == p && Swept(q, busy, merged, points, n, candidates, seen, index, mark)
    ensures Swept(q, busy, merged, points, n + 1, candidates', seen', index', mark')
    ensures |candidates'| <= |candidates| + 1
  {
    hide Swept, Merges, Slot, FreeSlots, PointsAscend;
    candidates', seen', index', mark' := candidates, seen, index, mark;
    var slot := Offer(q, p);
    if slot.None? {
      SweptSkips(q, busy, merged, points, n, candidates, seen, index, mark);
      return;
    }
    var identity := slot.value;
    PointerBehind(q, busy, merged, points, n, candidates, seen, index, mark);
    while index' < |merged| && merged[index'].end <= identity.start
      invariant index <= index' <= |merged|
      invariant index' > 0 ==> merged[index' - 1].end <= identity.start
    {
      index' := index' + 1;
    }
    mark' := Some(n);
    SweptAdvances(q, busy, merged, points, n, candidates, seen, index, mark, identity, index');
    var overlapsBusy := index' < |merged| && merged[index'].start < identity.end;
    if identity in seen || overlapsBusy {
      return;
    }
    seen' := seen + {identity};
    candidates' := candidates + [identity];
  }

  /** The innermost loop: one working interval, left as soon as the limit is reached. */
  method SweepInterval(q: Query, merged: seq<Interval>, grids: seq<Point>, candidates: seq<Interval>,
                       seen: set<Interval>, index: nat, limit: nat,
                       ghost busy: seq<Interval>, ghost points: seq<Point>, ghost n: nat, ghost mark: Option<nat>)
    returns (candidates': seq<Interval>, seen': set<Interval>, index': nat, ghost n': nat, ghost mark': Option<nat>)
    requires q.zone.Valid() && q.duration > 0 && PointsAscend(points) && Merges(merged, busy)
    requires Swept(q, busy, merged, points, n, candidates, seen, index, mark) && |candidates| < limit
    requires n + |grids| <= |points| && points[n..n + |grids|] == grids
    ensures Swept(q, busy, merged, points, n', candidates', seen', index', mark')
    ensures |candidates'| == limit || (|candidates'| < limit && n' == n + |grids|)
  {
    hide Swept, Merges, PointsAscend;
    candidates', seen', index', n', mark' := candidates, seen, index, n, mark;
    for k := 0 to |grids|
      invariant n' == n + k && |candidates'| < limit
      invariant Swept(q, busy, merged, points, n', candidates', seen', index', mark')
    {
      assert points[n..n + |grids|][k] == points[n'];
      candidates', seen', index', mark' :=
        Consider(q, merged, grids[k], candidates', seen', index', busy, points, n', mark');
      n' := n' + 1;
      if |candidates'| == limit {
        return;
      }
    }
  }

  /** The middle loop: one day. */
  method SweepDay(q: Query, merged: seq<Interval>, day: int, intervals: seq<WorkingInterval>, grid: int,
                  candidates: seq<Interval>, seen: set<Interval>, index: nat, limit: nat,
                  ghost busy: seq<Interval>, ghost points: seq<Point>, ghost n: nat, ghost mark: Option<nat>)
    returns (candidates': seq<Interval>, seen': set<Interval>, index': nat, ghost n': nat, ghost mark': Option<nat>)
    requires q.zone.Valid() && q.duration > 0 && PointsAscend(points) && Merges(merged, busy) && grid > 0
    requires Swept(q, busy, merged, points, n, candidates, seen, index, mark) && |candidates| < limit
    requires var dayPoints := DayPoints(day, intervals, grid);
      n + |dayPoints| <= |points| && points[n..n + |dayPoints|] == dayPoints
    ensures Swept(q, busy, merged, points, n', candidates', seen', index', mark')
    ensures |candidates'| == limit || (|candidates'| < limit && n' == n + |DayPoints(day, intervals, grid)|)
  {
    hide Swept, Merges, PointsAscend, GridPoints;
    candidates', seen', index', n', mark' := candidates, seen, index, n, mark;
    for i := 0 to |intervals|
      invariant n' == n + |DayPoints(day, intervals[..i], grid)| && |candidates'| < limit
      invariant Swept(q, busy, merged, points, n', candidates', seen', index', mark')
    {
      IntervalIsLocated(day, intervals, grid, i, points, n);
      candidates', seen', index', n', mark' :=
        SweepInterval(q, merged, GridPoints(day, intervals[i], grid), candidates', seen', index', limit, busy, points,
          n', mark');
      if |candidates'| == limit {
        return;
      }
    }
    assert intervals[..|intervals|] == intervals;
  }

  /** What the pointer has passed ended before the next slot can start. */
  lemma PointerBehind(q: Query, busy: seq<Interval>, merged: seq<Interval>, points: seq<Point>, n: nat,
                      candidates: seq<Interval>, seen: set<Interval>, index: nat, mark: Option<nat>)
    requires q.zone.Valid() && q.duration > 0 && PointsAscend(points)
    requires Swept(q, busy, merged, points, n, candidates, seen, index, mark)
    requires n < |points| && Slot(q, points[n]).Some?
    ensures index <= |merged| && (index > 0 ==> merged[index - 1].end <= Slot(q, points[n]).value.start)
  {
    if mark.Some? {
      SlotsAscend(q, points[mark.value], points[n]);
    }
  }

  /** The sweep may stop at the limit, or when the points run out. */
  lemma SweptResult(q: Query, busy: seq<Interval>, merged: seq<Interval>, points: seq<Point>, n: nat,
                    candidates: seq<Interval>, seen: set<Interval>, index: nat, mark: Option<nat>, limit: nat)
    requires Swept(q, busy, merged, points, n, candidates, seen, index, mark)
    requires |candidates| == limit || (|candidates| < limit && n == |points|)
    ensures candidates == First(limit, FreeSlots(q, busy, points))
  {
    FreeSlotsPrefix(q, busy, points, n);
    if n == |points| {
      assert points[..n] == points;
    }
  }

  datatype Refused = Refused

  predicate Accepted(duration: int, buffer: int, horizon: int, grid: int, limit: int) {
    && duration > 0 && 0 <= buffer <= 120 * MINUTE && buffer % MINUTE == 0
    && 1 <= horizon <= 14 && 0 < grid <= 60 && 60 % grid == 0 && 1 <= limit <= 3
  }

  /** The outer loop: the days searched. */
  method Sweep(q: Query, merged: seq<Interval>, hours: WorkingHours, first: int, horizon: nat, grid: int, limit: nat,
               ghost busy: seq<Interval>)
    returns (candidates: seq<Interval>)
    requires q.zone.Valid() && q.duration > 0 && hours.Valid() && Merges(merged, busy) && grid > 0 && limit > 0
    ensures candidates == First(limit, FreeSlots(q, busy, AllPoints(hours, first, horizon, grid)))
  {
    hide Swept, Merges, FreeSlots, PointsAscend, First, AllPoints, DayPoints;
    ghost var points := AllPoints(hours, first, horizon, grid);
    SweptStarts(q, busy, merged, hours, first, horizon, grid);
    candidates := [];
    var seen, index := {}, 0;
    ghost var n, mark := 0, None;
    for offset := 0 to horizon
      invariant n == |AllPoints(hours, first, offset, grid)| && |candidates| < limit
      invariant Swept(q, busy, merged, points, n, candidates, seen, index, mark)
    {
      DayIsLocated(hours, first, horizon, grid, offset);
      var day := first + offset;
      candidates, seen, index, n, mark :=
        SweepDay(q, merged, day, hours.For(day), grid, candidates, seen, index, limit, busy, points, n, mark);
      if |candidates| == limit {
        break;
      }
    }
    SweptResult(q, busy, merged, points, n, candidates, seen, index, mark, limit);
  }

  /** `suggest_meeting_times`, without the pass-through of missing connections. */
  method SuggestMeetingTimes(zone: Zone, duration: int, earliest: int, hours: WorkingHours, buffer: int,
                             events: seq<Event>, horizon: int, grid: int, limit: int)
    returns (result: Result<seq<Interval>, Refused>)
    requires zone.Valid() && hours.Valid() && forall e :: e in events ==> e.start < e.end
    ensures result.Ok? <==> Accepted(duration, buffer, horizon, grid, limit)
    ensures result.Ok? ==>
      FirstSuggestions(Query(zone, duration, earliest), hours, horizon, grid, events, buffer, limit, result.value)
  {
    if duration <= 0 || buffer < 0 || buffer % MINUTE != 0 {
      return Err(Refused);
    }
    if buffer / MINUTE > 120 || !(1 <= horizon <= 14) {
      return Err(Refused);
    }
    if grid <= 0 || grid > 60 || 60 % grid != 0 || !(1 <= limit <= 3) {
      return Err(Refused);
    }
    var merged := MergeBuffered(events, buffer);
    BufferedIsProper(events, buffer);
    var q := Query(zone, duration, earliest);
    var candidates := Sweep(q, merged, hours, zone.LocalDate(earliest), horizon, grid, limit, Buffered(events, buffer));
    FirstAreSuggestions(q, hours, horizon, grid, events, buffer, limit);
    result := Ok(candidates);
  }

  lemma SweptStarts(q: Query, busy: seq<Interval>, merged: seq<Interval>, hours: WorkingHours, first: int,
    horizon: nat, grid: int)
    requires hours.Valid() && grid > 0
    ensures var points := AllPoints(hours, first, horizon, grid);
      PointsAscend(points) && Swept(q, busy, merged, points, 0, [], {}, 0, None)
    ensures |AllPoints(hours, first, 0, grid)| == 0
  {
    AllPointsAreExact(hours, first, horizon, grid);
    assert AllPoints(hours, first, horizon, grid)[..0] == [];
  }

  /** Where the points of one day sit in the whole list. */
  lemma DayIsLocated(hours: WorkingHours, first: int, horizon: nat, grid: int, offset: nat)
    requires hours.Valid() && grid > 0 && offset < horizon
    ensures var points, n := AllPoints(hours, first, horizon, grid), |AllPoints(hours, first, offset, grid)|;
      var dayPoints := DayPoints(first + offset, hours.For(first + offset), grid);
      && n + |dayPoints| == |AllPoints(hours, first, offset + 1, grid)| <= |points|
      && points[n..n + |dayPoints|] == dayPoints
  {
    hide DayPoints;
    DaysPrefix(hours, first, horizon, grid, offset + 1);
  }

  /** Where the points of one interval sit in its day. */
  lemma IntervalIsLocated(day: int, intervals: seq<WorkingInterval>, grid: int, i: nat, points: seq<Point>, n: nat)
    requires grid > 0 && i < |intervals|
    requires var dayPoints := DayPoints(day, intervals, grid);
      n + |dayPoints| <= |points| && points[n..n + |dayPoints|] == dayPoints
    ensures var grids, base := GridPoints(day, intervals[i], grid), n + |DayPoints(day, intervals[..i], grid)|;
      && base + |grids| == n + |DayPoints(day, intervals[..i + 1], grid)| <= |points|
      && points[base..base + |grids|] == grids
  {
    hide GridPoints;
    var dayPoints, before, grids := DayPoints(day, intervals, grid), DayPoints(day, intervals[..i], grid),
      GridPoints(day, intervals[i], grid);
    assert before + grids <= dayPoints by {
      IntervalsPrefix(day, intervals, grid, i + 1);
      assert intervals[..i + 1][..i] == intervals[..i];
    }
    assert DayPoints(day, intervals[..i + 1], grid) == before + grids by {
      assert intervals[..i + 1][..i] == intervals[..i];
    }
    hide DayPoints;
    SliceOfSlice(points, n, dayPoints, before, grids);
  }

  lemma SliceOfSlice(s: seq<Point>, n: nat, middle: seq<Point>, before: seq<Point>, part: seq<Point>)
    requires n + |middle| <= |s| && s[n..n + |middle|] == middle
    requires before + part <= middle
    ensures n + |before| + |part| <= |s| && s[n + |before|..n + |before| + |part|] == part
  {
    assert (before + part)[|before|..] == part;
    assert middle[|before|..|before| + |part|] == (before + part)[|before|..];
    forall k | 0 <= k < |part|
      ensures s[n + |before| + k] == part[k]
    {
      assert s[n..n + |middle|][|before| + k] == part[k];
    }
  }

  lemma {:induction false} DaysPrefix(hours: WorkingHours, first: int, horizon: nat, grid: int, n: nat)
    requires hours.Valid() && grid > 0 && n <= horizon
    ensures AllPoints(hours, first, n, grid) <= AllPoints(hours, first, horizon, grid)
  {
    if n < horizon {
      DaysPrefix(hours, first, horizon - 1, grid, n);
    }
  }

  lemma {:induction false} IntervalsPrefix(day: int, intervals: seq<WorkingInterval>, grid: int, n: nat)
    requires grid > 0 && n <= |intervals|
    ensures DayPoints(day, intervals[..n], grid) <= DayPoints(day, intervals, grid)
  {
    if n == |intervals| {
      assert intervals[..n] == intervals;
    } else {
      IntervalsPrefix(day, intervals[..|intervals| - 1], grid, n);
      assert intervals[..|intervals| - 1][..n] == intervals[..n];
    }
  }
}
