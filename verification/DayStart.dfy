/**
 * backend/src/ai_employee/application/task_history_dates.py: the first instant of a civil day, for
 * ordinary, repeated, skipped and wholly skipped midnights, and the tiling of the time line that the
 * history ranges rely on. Dates outside the platform's calendar range are not modelled.
 */
module DayStart {
  import opened Prelude
  import opened Zones

  /** The least instant whose local date is at or after `day`. */
  ghost predicate IsDayStart(z: Zone, day: int, start: int) {
    z.LocalDate(start) >= day && forall u :: u < start ==> z.LocalDate(u) < day
  }

  /** Local dates compare as local times do with midnight. */
  lemma DateReached(wall: int, day: int)
    ensures wall / DAY >= day <==> wall >= day * DAY
  {
  }

  /** Midnight shown at least once: the fold-0 reading is the first time, whatever fold 1 reads. */
  lemma ShownMidnight(z: Zone, day: int)
    requires z.Valid() && z.Local(z.ToUtc(day * DAY, false)) == day * DAY
    ensures IsDayStart(z, day, z.ToUtc(day * DAY, false))
    ensures forall u :: u < z.ToUtc(day * DAY, false) ==> z.Local(u) != day * DAY
  {
    var midnight := day * DAY;
    var c := z.ToUtc(midnight, false);
    FoldZeroReading(z, midnight);
    if Skipped(z, midnight) {
      SkippedIsNeverShown(z, midnight, c);
    }
    DateReached(z.Local(c), day);
    forall u | u < c
      ensures z.LocalDate(u) < day && z.Local(u) != midnight
    {
      EarlierShowsLess(z, midnight, u);
      DateReached(z.Local(u), day);
    }
  }

  ghost predicate Skipped(z: Zone, wall: int) {
    var k := Bisect(z.Thresholds(false), wall);
    k < |z.transitions| && z.transitions[k].at <= z.ToUtc(wall, false)
  }

  /** Midnight never shown: one change jumps over it, and the two readings lie on either side. */
  lemma SkippedMidnight(z: Zone, day: int) returns (jump: int)
    requires z.Valid() && z.Local(z.ToUtc(day * DAY, false)) != day * DAY
    ensures z.ToUtc(day * DAY, true) < jump <= z.ToUtc(day * DAY, false)
    ensures forall u :: z.LocalDate(u) >= day <==> u >= jump
    ensures forall u :: z.Local(u) != day * DAY
  {
    var midnight := day * DAY;
    var k := Bisect(z.Thresholds(false), midnight);
    FoldZeroReading(z, midnight);
    WallSegmentBounds(z, midnight, false);
    assert Skipped(z, midnight);
    jump := z.transitions[k].at;
    FoldOneReading(z, midnight, k);
    forall u
      ensures z.LocalDate(u) >= day <==> u >= jump
      ensures z.Local(u) != midnight
    {
      DateReached(z.Local(u), day);
      SkippedIsNeverShown(z, midnight, u);
      AboveWallSegment(z, midnight, u);
      if u < jump {
        BelowWallSegment(z, midnight, u);
        if k > 0 ==> z.transitions[k - 1].at <= u {
          SteadyWithin(z, k, u);
        }
      }
    }
  }

  /** Read with fold 1, a wall time inside the jump uses the offset that follows it. */
  lemma FoldOneReading(z: Zone, wall: int, k: nat)
    requires z.Valid() && k < |z.transitions|
    requires z.Offset(k) < z.Offset(k + 1) && z.Threshold(k, true) <= wall < z.Threshold(k, false)
    ensures z.ToUtc(wall, true) == wall - z.Offset(k + 1) < z.transitions[k].at
  {
    var j := Bisect(z.Thresholds(true), wall);
    WallSegmentBounds(z, wall, true);
    assert z.Thresholds(true)[k] == z.Threshold(k, true);
    if j > k + 1 {
      TransitionsAreOrdered(z, k, j - 1);
    }
  }

  /** `local_day_start`. */
  method LocalDayStart(z: Zone, day: int) returns (start: int)
    requires z.Valid()
    ensures IsDayStart(z, day, start)
  {
    var midnight := day * DAY;
    var first, second := z.ToUtc(midnight, false), z.ToUtc(midnight, true);
    var lower, upper := if first <= second then first else second, if first <= second then second else first;
    if z.Local(first) == midnight {
      ShownMidnight(z, day);
    }
    if z.Local(lower) == midnight {
      if lower != first {
        var jump := SkippedMidnight(z, day);
      }
      return lower;
    }
    if z.Local(upper) == midnight {
      if upper != first {
        var jump := SkippedMidnight(z, day);
      }
      return upper;
    }
    ghost var jump := SkippedMidnight(z, day);
    while upper - lower > 1
      invariant lower < jump <= upper
      decreases upper - lower
    {
      var middle := lower + (upper - lower) / 2;
      if z.LocalDate(middle) >= day {
        upper := middle;
      } else {
        lower := middle;
      }
    }
    start := upper;
  }

  // ---------------------------------------------------------------- what the ranges tile

  /** Every date of every zone has a start, and only one. */
  lemma DayStartExistsOnce(z: Zone, day: int) returns (start: int)
    requires z.Valid()
    ensures forall t :: IsDayStart(z, day, t) <==> t == start
  {
    start := z.ToUtc(day * DAY, false);
    if z.Local(start) == day * DAY {
      ShownMidnight(z, day);
    } else {
      start := SkippedMidnight(z, day);
    }
    assert IsDayStart(z, day, start);
    forall t | IsDayStart(z, day, t)
      ensures t == start
    {
      assert z.LocalDate(start) >= day && z.LocalDate(t) >= day;
    }
  }

  /** Starts never go backwards, and a range is empty exactly when its whole date is jumped over. */
  lemma StartsAreMonotone(z: Zone, day: int, later: int, s: int, t: int)
    requires day <= later && IsDayStart(z, day, s) && IsDayStart(z, later, t)
    ensures s <= t
    ensures later == day + 1 ==> (s == t <==> z.LocalDate(s) > day)
  {
    if s < t {
      assert z.LocalDate(s) < later;
    }
  }

  /** A range holds exactly the instants up to which that date, and no later one, has been shown. */
  lemma RangeIsHighestDateShown(z: Zone, day: int, s: int, e: int, u: int)
    requires IsDayStart(z, day, s) && IsDayStart(z, day + 1, e)
    ensures s <= u < e <==>
      (forall v :: v <= u ==> z.LocalDate(v) <= day) && (exists v :: v <= u && z.LocalDate(v) >= day)
  {
    if s <= u < e {
      assert s <= u && z.LocalDate(s) >= day;
    } else if u >= e {
      assert z.LocalDate(e) > day;
    }
  }

  /** Consecutive ranges tile the time line between the first start and the last. */
  lemma {:induction false} RangesTile(z: Zone, day: int, starts: seq<int>, u: int) returns (i: nat)
    requires |starts| > 0 && forall j :: 0 <= j < |starts| ==> IsDayStart(z, day + j, starts[j])
    requires starts[0] <= u < starts[|starts| - 1]
    ensures i + 1 < |starts| && starts[i] <= u < starts[i + 1]
    ensures forall j :: 0 <= j < |starts| - 1 && starts[j] <= u < starts[j + 1] ==> j == i
  {
    var n := |starts| - 1;
    if starts[n - 1] <= u {
      i := n - 1;
    } else {
      i := RangesTile(z, day, starts[..n], u);
    }
    forall a, b | 0 <= a <= b <= n
      ensures starts[a] <= starts[b]
    {
      StartsAreMonotone(z, day + a, day + b, starts[a], starts[b]);
    }
  }
}
