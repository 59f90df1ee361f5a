/**
 * The busy half of backend/src/ai_employee/domain/calendar_availability.py: buffering, sorting and
 * merging calendar events, and why a pointer that only moves forward over the merged intervals
 * decides the naive overlap test.
 */
module BusyTime {
  import opened Sorting

  /** The half-open interval of instants `[start, end)`. */
  datatype Interval = Interval(start: int, end: int) {
    predicate Proper() { start < end }
    predicate Holds(t: int) { start <= t < end }
    predicate Overlaps(other: Interval) { start < other.end && end > other.start }
  }

  /** A synchronised event; the two flags are its case-folded status and transparency tests. */
  datatype Event = Event(start: int, end: int, cancelled: bool, transparent: bool)

  /** The order of `(start, end)` tuples. */
  predicate Before(a: Interval, b: Interval) {
    a.start < b.start || (a.start == b.start && a.end <= b.end)
  }

  /** `_overlaps_any`, the simple form. */
  ghost predicate OverlapsAny(slot: Interval, busy: seq<Interval>) {
    exists b :: b in busy && slot.Overlaps(b)
  }

  ghost predicate AllProper(s: seq<Interval>) { forall b :: b in s ==> b.Proper() }

  ghost predicate Covers(s: seq<Interval>, t: int) { exists b :: b in s && b.Holds(t) }

  /** Sorted, and with a gap between neighbours. */
  ghost predicate Separated(s: seq<Interval>) {
    forall i, j :: 0 <= i < j < |s| ==> s[i].end < s[j].start
  }

  /** The intervals that events block, in event order. */
  function Buffered(events: seq<Event>, buffer: int): seq<Interval> {
    if events == [] then []
    else
      var e := events[|events| - 1];
      Buffered(events[..|events| - 1], buffer) +
      if e.cancelled || e.transparent then [] else [Interval(e.start - buffer, e.end + buffer)]
  }

  /** A busy event, widened by the buffer on both sides, meets the slot. */
  predicate Blocks(e: Event, buffer: int, slot: Interval) {
    !e.cancelled && !e.transparent && e.start - buffer < slot.end && slot.start < e.end + buffer
  }

  /** Overlap with the buffered intervals is being blocked by some event. */
  lemma {:induction false} BufferedIsExact(events: seq<Event>, buffer: int, slot: Interval)
    ensures OverlapsAny(slot, Buffered(events, buffer)) <==> exists e :: e in events && Blocks(e, buffer, slot)
  {
    if events != [] {
      var front, e := events[..|events| - 1], events[|events| - 1];
      BufferedIsExact(front, buffer, slot);
      assert events == front + [e];
      var before, all := Buffered(front, buffer), Buffered(events, buffer);
      if !e.cancelled && !e.transparent {
        var added := Interval(e.start - buffer, e.end + buffer);
        assert all == before + [added];
        assert added in all && (slot.Overlaps(added) <==> Blocks(e, buffer, slot));
        assert forall b :: b in all <==> b in before || b == added;
      }
    }
  }

  lemma {:induction false} BufferedIsProper(events: seq<Event>, buffer: int)
    requires buffer >= 0 && forall e :: e in events ==> e.start < e.end
    ensures AllProper(Buffered(events, buffer))
  {
    if events != [] {
      BufferedIsProper(events[..|events| - 1], buffer);
      assert events[|events| - 1] in events;
    }
  }

  /** What merging has established about the intervals taken so far. */
  ghost predicate MergedSoFar(merged: seq<Interval>, taken: seq<Interval>) {
    && AllProper(merged) && Separated(merged)
    && (forall t :: Covers(merged, t) <==> Covers(taken, t))
    && (merged != [] ==> taken != [] && merged[|merged| - 1].start <= taken[|taken| - 1].start)
  }

  lemma AppendKeepsMerge(merged: seq<Interval>, taken: seq<Interval>, next: Interval)
    requires MergedSoFar(merged, taken) && next.Proper()
    requires merged != [] ==> next.start > merged[|merged| - 1].end
    ensures MergedSoFar(merged + [next], taken + [next])
  {
    CoverGrows(merged, next);
    CoverGrows(taken, next);
    forall i | 0 <= i < |merged|
      ensures merged[i].end < next.start
    {
      assert merged[|merged| - 1] in merged;
    }
  }

  lemma StretchKeepsMerge(merged: seq<Interval>, taken: seq<Interval>, next: Interval)
    requires MergedSoFar(merged, taken) && next.Proper()
    requires merged != [] && next.start <= merged[|merged| - 1].end
    requires Before(taken[|taken| - 1], next)
    ensures MergedSoFar(Stretched(merged, next), taken + [next])
  {
    CoverGrows(taken, next);
    LastStretched(merged, next);
    assert merged[|merged| - 1] in merged;
  }

  function Stretched(merged: seq<Interval>, next: Interval): seq<Interval>
    requires merged != []
  {
    var last := |merged| - 1;
    if next.end > merged[last].end then merged[last := Interval(merged[last].start, next.end)] else merged
  }

  /** `_merge_buffered_intervals`. */
  method MergeBuffered(events: seq<Event>, buffer: int) returns (merged: seq<Interval>)
    requires buffer >= 0 && forall e :: e in events ==> e.start < e.end
    ensures AllProper(merged) && Separated(merged)
    ensures forall t :: Covers(merged, t) <==> Covers(Buffered(events, buffer), t)
  {
    var intervals := [];
    for i := 0 to |events|
      invariant intervals == Buffered(events[..i], buffer)
    {
      var event := events[i];
      assert events[..i + 1][..i] == events[..i];
      if !(event.cancelled || event.transparent) {
        intervals := intervals + [Interval(event.start - buffer, event.end + buffer)];
      }
    }
    assert events[..|events|] == events;
    BufferedIsProper(events, buffer);
    SortIsSortedPermutation(Before, intervals);
    SameElements(SortBy(Before, intervals), intervals);
    SameCover(SortBy(Before, intervals), intervals);
    merged := MergeSorted(SortBy(Before, intervals));
  }

  method MergeSorted(intervals: seq<Interval>) returns (merged: seq<Interval>)
    requires AllProper(intervals) && SortedBy(Before, intervals)
    ensures AllProper(merged) && Separated(merged)
    ensures forall t :: Covers(merged, t) <==> Covers(intervals, t)
  {
    merged := [];
    for i := 0 to |intervals|
      invariant MergedSoFar(merged, intervals[..i])
    {
      var next := intervals[i];
      ghost var before := merged;
      assert next in intervals;
      assert intervals[..i + 1] == intervals[..i] + [next];
      if merged == [] || next.start > merged[|merged| - 1].end {
        merged := merged + [next];
        AppendKeepsMerge(before, intervals[..i], next);
      } else {
        var previous := merged[|merged| - 1];
        if next.end > previous.end {
          merged := merged[|merged| - 1 := Interval(previous.start, next.end)];
        }
        StretchKeepsMerge(before, intervals[..i], next);
      }
    }
    assert intervals[..|intervals|] == intervals;
  }

  lemma SameCover(a: seq<Interval>, b: seq<Interval>)
    requires forall x :: x in a <==> x in b
    ensures forall t :: Covers(a, t) <==> Covers(b, t)
  {
  }

  lemma CoverGrows(s: seq<Interval>, x: Interval)
    ensures forall t :: Covers(s + [x], t) <==> Covers(s, t) || x.Holds(t)
  {
    forall t
      ensures Covers(s + [x], t) <==> Covers(s, t) || x.Holds(t)
    {
      if Covers(s, t) {
        var b :| b in s && b.Holds(t);
        assert b in s + [x];
      }
      if x.Holds(t) {
        assert x in s + [x];
      }
    }
  }

  /** Stretching the last interval over an interval that starts inside or right after it adds just that. */
  lemma LastStretched(s: seq<Interval>, x: Interval)
    requires s != [] && AllProper(s) && x.Proper()
    requires s[|s| - 1].start <= x.start <= s[|s| - 1].end
    ensures forall t :: Covers(Stretched(s, x), t) <==> Covers(s, t) || x.Holds(t)
    ensures AllProper(Stretched(s, x))
  {
    var front, last := s[..|s| - 1], s[|s| - 1];
    var longer := Interval(last.start, x.end);
    assert s == front + [last];
    assert last in s;
    CoverGrows(front, last);
    CoverGrows(front, longer);
    assert x.end > last.end ==> Stretched(s, x) == front + [longer];
  }

  // ---------------------------------------------------------------- the pointer decides the naive test

  /** Overlap depends only on which instants are covered. */
  lemma OverlapByCover(slot: Interval, a: seq<Interval>, b: seq<Interval>)
    requires slot.Proper() && AllProper(a)
    requires forall t :: Covers(a, t) ==> Covers(b, t)
    ensures OverlapsAny(slot, a) ==> OverlapsAny(slot, b)
  {
    if OverlapsAny(slot, a) {
      var x :| x in a && slot.Overlaps(x);
      var t := if slot.start < x.start then x.start else slot.start;
      assert Covers(a, t);
      var y :| y in b && y.Holds(t);
      assert slot.Overlaps(y);
    }
  }

  /**
   * Once every merged interval before the pointer has ended and the pointed one has not, looking at
   * that one interval alone is the naive test against every buffered event.
   */
  lemma PointerDecides(slot: Interval, merged: seq<Interval>, busy: seq<Interval>, index: nat)
    requires slot.Proper() && AllProper(merged) && AllProper(busy) && Separated(merged)
    requires forall t :: Covers(merged, t) <==> Covers(busy, t)
    requires index <= |merged| && (index > 0 ==> merged[index - 1].end <= slot.start)
    requires index < |merged| ==> slot.start < merged[index].end
    ensures (index < |merged| && merged[index].start < slot.end) <==> OverlapsAny(slot, busy)
  {
    OverlapByCover(slot, merged, busy);
    OverlapByCover(slot, busy, merged);
    assert index < |merged| ==> merged[index] in merged;
    assert index > 0 ==> merged[index - 1] in merged;
    if index < |merged| && merged[index].start < slot.end {
      assert slot.Overlaps(merged[index]);
    }
  }
}
