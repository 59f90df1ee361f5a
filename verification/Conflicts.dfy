/**
 * `find_conflicts` of backend/src/ai_employee/domain/calendar.py: a sorted scan that stops early, the
 * overlap relation it reports, and when Python's comparison of times makes that the overlap of instants.
 */
module Conflicts {
  import opened Prelude
  import opened Sorting

  /** A `datetime`: without a time zone, or with the zone object it holds, its wall time and its instant. */
  datatype Stamp = Naive | Aware(zone: nat, wall: int, instant: int)

  /** Python's `<` on aware times: by wall within one zone object, by instant otherwise. */
  predicate Less(a: Stamp, b: Stamp)
    requires a.Aware? && b.Aware?
  {
    if a.zone == b.zone then a.wall < b.wall else a.instant < b.instant
  }

  /** The flags are the case-folded status and transparency tests. */
  datatype Event = Event(id: Text, start: Option<Stamp>, end: Option<Stamp>,
                         cancelled: bool, transparent: bool, allDay: bool)
  {
    predicate Participates() {
      !allDay && !cancelled && !transparent && start.Some? && end.Some?
    }

    predicate StartIsAware() { start.Some? && start.value.Aware? }

    predicate IsAware() { StartIsAware() && end.Some? && end.value.Aware? }

    /** Both times have a zone and compare as start before end. */
    predicate Timed() { IsAware() && Less(start.value, end.value) }

    /** The documented condition: both times are instants, in order. */
    predicate TimedByInstant() { IsAware() && start.value.instant < end.value.instant }
  }

  type Pair = (Event, Event)

  /** The overlap of half-open intervals, as Python compares their ends. */
  predicate Overlap(a: Event, b: Event)
    requires a.IsAware() && b.IsAware()
  {
    Less(a.start.value, b.end.value) && Less(b.start.value, a.end.value)
  }

  predicate OverlapByInstant(a: Event, b: Event)
    requires a.IsAware() && b.IsAware()
  {
    a.start.value.instant < b.end.value.instant && b.start.value.instant < a.end.value.instant
  }

  /** `a` may stand before `b`: the start of `b` is not the smaller one. */
  predicate StartsFirst(a: Event, b: Event) {
    a.StartIsAware() && b.StartIsAware() ==> !Less(b.start.value, a.start.value)
  }

  function IdOf(e: Event): Text { e.id }

  ghost predicate DistinctIds(s: seq<Event>) { DistinctBy(IdOf, s) }

  ghost predicate AllTimed(s: seq<Event>) { forall i :: 0 <= i < |s| ==> s[i].Timed() }

  // ---------------------------------------------------------------- first occurrences

  ghost predicate FirstOccurrence(events: seq<Event>, e: Event) {
    exists i :: 0 <= i < |events| && events[i] == e && forall j :: 0 <= j < i ==> events[j].id != e.id
  }

  /** The participating ones among the first events of each identity. */
  ghost predicate IsBusy(events: seq<Event>, e: Event) {
    FirstOccurrence(events, e) && !e.allDay && !e.cancelled && !e.transparent && e.start.Some? && e.end.Some?
  }

  method BusyEvents(events: seq<Event>) returns (busy: seq<Event>)
    ensures DistinctIds(busy)
    ensures forall e :: e in busy <==> IsBusy(events, e)
  {
    busy := [];
    var known := {};
    for i := 0 to |events|
      invariant forall id :: id in known <==> exists j :: 0 <= j < i && events[j].id == id
      invariant DistinctIds(busy) && forall e :: e in busy ==> e.id in known
      invariant forall e :: e in busy <==> IsBusy(events[..i], e)
    {
      var event := events[i];
      FirstOccurrencesGrow(events[..i], event);
      assert events[..i + 1] == events[..i] + [event];
      if event.id !in known {
        if event.Participates() {
          busy := busy + [event];
        }
        known := known + {event.id};
      }
    }
    assert events[..|events|] == events;
  }

  lemma FirstOccurrencesGrow(events: seq<Event>, event: Event)
    ensures forall e :: FirstOccurrence(events + [event], e) <==>
      FirstOccurrence(events, e) || (e == event && forall j :: 0 <= j < |events| ==> events[j].id != event.id)
  {
    var longer := events + [event];
    assert forall j :: 0 <= j < |events| ==> longer[j] == events[j];
    forall e
      ensures FirstOccurrence(longer, e) <==>
        FirstOccurrence(events, e) || (e == event && forall j :: 0 <= j < |events| ==> events[j].id != event.id)
    {
      if FirstOccurrence(events, e) {
        var i :| 0 <= i < |events| && events[i] == e && forall j :: 0 <= j < i ==> events[j].id != e.id;
        assert longer[i] == e;
      }
      if FirstOccurrence(longer, e) {
        var i :| 0 <= i < |longer| && longer[i] == e && forall j :: 0 <= j < i ==> longer[j].id != e.id;
        assert forall j :: 0 <= j < i ==> events[j].id != e.id;
        if i < |events| {
          assert events[i] == e;
        }
      }
      if e == event && forall j :: 0 <= j < |events| ==> events[j].id != event.id {
        assert longer[|events|] == e;
      }
    }
  }

  // ---------------------------------------------------------------- what is reported, and when it can be trusted

  predicate Agrees(rank: Stamp -> int, x: Stamp, y: Stamp)
    requires x.Aware? && y.Aware?
  {
    Less(x, y) <==> rank(x) < rank(y)
  }

  /** Python compares the times of the two events as their ranks compare. */
  predicate RankedPair(rank: Stamp -> int, e: Event, f: Event) {
    e.IsAware() && f.IsAware() ==>
      && Agrees(rank, e.start.value, f.start.value) && Agrees(rank, e.start.value, f.end.value)
      && Agrees(rank, e.end.value, f.start.value) && Agrees(rank, e.end.value, f.end.value)
  }

  /** Python's comparison of the participating times is one linear order. */
  ghost predicate Ranked(rank: Stamp -> int, events: seq<Event>) {
    forall e, f :: IsBusy(events, e) && IsBusy(events, f) ==> RankedPair(rank, e, f)
  }

  ghost predicate OnlyThese(events: seq<Event>, a: Event, b: Event) {
    forall e :: IsBusy(events, e) ==> e == a || e == b
  }

  /** One linear order, or so few events that no third comparison matters. */
  ghost predicate Comparable(events: seq<Event>) {
    (exists rank :: Ranked(rank, events)) || (exists a, b :: OnlyThese(events, a, b))
  }

  /** By the start of the earlier event and, for one earlier event, by the start of the later one. */
  ghost predicate InStartOrder(pairs: seq<Pair>) {
    forall i, j :: 0 <= i < j < |pairs| ==> PairsFirst(pairs[i], pairs[j])
  }

  predicate PairsFirst(p: Pair, q: Pair) {
    StartsFirst(p.0, q.0) && (p.0 == q.0 ==> StartsFirst(p.1, q.1))
  }

  /** Each overlapping pair of busy events once, in one of its two orders, and nothing else, in start order. */
  ghost predicate ReportsExactly(events: seq<Event>, pairs: seq<Pair>) {
    && (forall e :: IsBusy(events, e) ==> e.Timed())
    && (forall p :: p in pairs ==>
          IsBusy(events, p.0) && IsBusy(events, p.1) && p.0.id != p.1.id && Overlap(p.0, p.1) && StartsFirst(p.0, p.1))
    && (forall a, b :: IsBusy(events, a) && IsBusy(events, b) && a.id != b.id && Overlap(a, b) ==>
          ((a, b) in pairs <==> (b, a) !in pairs))
    && (forall i, j :: 0 <= i < j < |pairs| ==> pairs[i] != pairs[j])
    && InStartOrder(pairs)
  }

  /**
   * What every run does: it raises exactly on an invalid interval, and reports exactly where the order
   * is one order.
   */
  ghost predicate Behaves(events: seq<Event>, r: Result<seq<Pair>, Invalid>) {
    && (r.Err? <==> exists e :: IsBusy(events, e) && !e.Timed())
    && (r.Ok? ==> forall p :: p in r.value ==>
          IsBusy(events, p.0) && IsBusy(events, p.1) && p.0.id != p.1.id && p.0.IsAware() && p.1.IsAware() &&
            Overlap(p.0, p.1))
    && (r.Ok? && Comparable(events) ==> ReportsExactly(events, r.value))
  }

  /** What the documentation promises, in terms of instants alone. */
  ghost predicate Documented(events: seq<Event>, r: Result<seq<Pair>, Invalid>) {
    && (r.Err? <==> exists e :: IsBusy(events, e) && !e.TimedByInstant())
    && (r.Ok? ==> ReportsInstants(events, r.value))
  }

  ghost predicate ReportsInstants(events: seq<Event>, pairs: seq<Pair>) {
    && (forall e :: IsBusy(events, e) ==> e.TimedByInstant())
    && (forall p :: p in pairs ==>
          && IsBusy(events, p.0) && IsBusy(events, p.1) && p.0.id != p.1.id && OverlapByInstant(p.0, p.1)
          && p.0.start.value.instant <= p.1.start.value.instant)
    && (forall a, b :: IsBusy(events, a) && IsBusy(events, b) && a.id != b.id && OverlapByInstant(a, b) ==>
          ((a, b) in pairs <==> (b, a) !in pairs))
    && (forall i, j :: 0 <= i < j < |pairs| ==> pairs[i] != pairs[j])
    && (forall i, j :: 0 <= i < j < |pairs| ==> InstantsAscend(pairs[i], pairs[j]))
  }

  /** As `PairsFirst`, by instants. */
  predicate InstantsAscend(p: Pair, q: Pair) {
    p.0.IsAware() && p.1.IsAware() && q.0.IsAware() && q.1.IsAware() ==>
      && p.0.start.value.instant <= q.0.start.value.instant
      && (p.0 == q.0 ==> p.1.start.value.instant <= q.1.start.value.instant)
  }

  /** Two times of one zone are ordered alike by wall and by instant. */
  predicate Alike(x: Stamp, y: Stamp)
    requires x.Aware? && y.Aware?
  {
    x.zone == y.zone ==> (x.wall < y.wall <==> x.instant < y.instant)
  }

  predicate AlikePair(e: Event, f: Event) {
    e.IsAware() && f.IsAware() ==>
      && Alike(e.start.value, f.start.value) && Alike(e.start.value, f.end.value)
      && Alike(e.end.value, f.start.value) && Alike(e.end.value, f.end.value)
  }

  /** Every two participating times of one zone are ordered alike by wall and by instant. */
  ghost predicate AllAlike(events: seq<Event>) {
    forall e, f :: IsBusy(events, e) && IsBusy(events, f) ==> AlikePair(e, f)
  }

  // ---------------------------------------------------------------- the scan

  /** The overlapping pairs of `s[i]` with the events after it and before position `end`. */
  function Row(s: seq<Event>, i: nat, end: nat): seq<Pair>
    requires i < end <= |s| && AllTimed(s)
  {
    if end == i + 1 then []
    else Row(s, i, end - 1) + if Overlap(s[i], s[end - 1]) then [(s[i], s[end - 1])] else []
  }

  /** The overlapping pairs whose earlier member lies before position `n`. */
  function Rows(s: seq<Event>, n: nat): seq<Pair>
    requires n <= |s| && AllTimed(s)
  {
    if n == 0 then [] else Rows(s, n - 1) + Row(s, n - 1, |s|)
  }

  /** Nothing that follows `s[k]` overlaps `s[i]` once `s[k]` starts no earlier than `s[i]` ends. */
  ghost predicate MayStop(s: seq<Event>, i: nat, k: nat)
    requires i < |s| && k < |s| && AllTimed(s)
  {
    !Less(s[k].start.value, s[i].end.value) ==>
      forall j :: k <= j < |s| ==> !Less(s[j].start.value, s[i].end.value)
  }

  /** Stopping early never loses a pair in this list. */
  ghost predicate StopsWell(s: seq<Event>) {
    AllTimed(s) ==> forall i, k :: 0 <= i < k < |s| ==> MayStop(s, i, k)
  }

  lemma {:induction false} StoppingLosesNothing(s: seq<Event>, i: nat, k: nat, end: nat)
    requires i < k <= end <= |s| && AllTimed(s)
    requires forall j :: k <= j < |s| ==> !Less(s[j].start.value, s[i].end.value)
    ensures Row(s, i, end) == Row(s, i, k)
  {
    if end > k {
      StoppingLosesNothing(s, i, k, end - 1);
    }
  }

  /** The inner loop with its early break; a later event with an invalid end stops it as an error. */
  method ScanRow(s: seq<Event>, i: nat) returns (row: Result<seq<Pair>, Invalid>)
    requires i < |s| && s[i].Timed() && forall e :: e in s ==> e.StartIsAware()
    ensures row.Err? ==> exists j :: 0 <= j < |s| && !s[j].Timed()
    ensures row.Ok? ==> forall p :: p in row.value ==> exists k :: 0 <= k < |s| && PairAt(s, i, k, p)
    ensures row.Ok? && AllTimed(s) && StopsWell(s) ==> row.value == Row(s, i, |s|)
  {
    hide StopsWell;
    var pairs := [];
    for k := i + 1 to |s|
      invariant forall p :: p in pairs ==> exists j :: 0 <= j < k && PairAt(s, i, j, p)
      invariant AllTimed(s) ==> pairs == Row(s, i, k)
    {
      var later := s[k];
      assert later in s;
      if !Less(later.start.value, s[i].end.value) {
        if AllTimed(s) && StopsWell(s) {
          StopsHere(s, i, k);
          StoppingLosesNothing(s, i, k, |s|);
        }
        return Ok(pairs);
      }
      if !later.Timed() {
        return Err(Invalid);
      }
      if Less(s[i].start.value, later.end.value) {
        assert PairAt(s, i, k, (s[i], later));
        pairs := pairs + [(s[i], later)];
      }
    }
    row := Ok(pairs);
  }

  lemma StopsHere(s: seq<Event>, i: nat, k: nat)
    requires StopsWell(s) && AllTimed(s) && i < k < |s| && !Less(s[k].start.value, s[i].end.value)
    ensures forall j :: k <= j < |s| ==> !Less(s[j].start.value, s[i].end.value)
  {
    assert MayStop(s, i, k);
  }

  /** The two loops over the sorted events. */
  method Scan(s: seq<Event>) returns (result: Result<seq<Pair>, Invalid>)
    requires forall e :: e in s ==> e.StartIsAware()
    ensures result.Ok? <==> AllTimed(s)
    ensures result.Ok? ==> forall p :: p in result.value ==> exists i, k ::
      0 <= i < |s| && 0 <= k < |s| && PairAt(s, i, k, p)
    ensures result.Ok? && StopsWell(s) ==> result.value == Rows(s, |s|)
  {
    hide StopsWell;
    var conflicts := [];
    for i := 0 to |s|
      invariant forall j :: 0 <= j < i ==> s[j].Timed()
      invariant forall p :: p in conflicts ==> exists j, k :: 0 <= j < |s| && 0 <= k < |s| && PairAt(s, j, k, p)
      invariant AllTimed(s) && StopsWell(s) ==> conflicts == Rows(s, i)
    {
      if !s[i].Timed() {
        return Err(Invalid);
      }
      var row := ScanRow(s, i);
      if row.Err? {
        return Err(Invalid);
      }
      conflicts := conflicts + row.value;
    }
    result := Ok(conflicts);
  }

  datatype Invalid = Invalid

  /** `find_conflicts`. */
  method FindConflicts(events: seq<Event>) returns (result: Result<seq<Pair>, Invalid>)
    ensures Behaves(events, result)
    ensures AllAlike(events) ==> Documented(events, result)
  {
    hide IsBusy, ReportsExactly, Rows, StopsWell, Comparable, AllAlike, Documented, StartsFirst;
    var busy := BusyEvents(events);
    for i := 0 to |busy|
      invariant forall j :: 0 <= j < i ==> busy[j].StartIsAware()
    {
      if !busy[i].StartIsAware() {
        assert busy[i] in busy;
        result := Err(Invalid);
        AlikeMeansDocumented(events, result);
        return;
      }
    }
    var sorted := SortBy(StartsFirst, busy);
    SortedBusy(events, busy);
    result := Scan(sorted);
    assert AllTimed(sorted) <==> forall e :: e in sorted ==> e.Timed();
    if result.Ok? {
      ScanReports(events, busy, result.value);
    }
    AlikeMeansDocumented(events, result);
  }

  lemma SortedBusy(events: seq<Event>, busy: seq<Event>)
    requires DistinctIds(busy) && forall e :: e in busy <==> IsBusy(events, e)
    requires forall i :: 0 <= i < |busy| ==> busy[i].StartIsAware()
    ensures var sorted := SortBy(StartsFirst, busy);
      && DistinctIds(sorted) && (forall e :: e in sorted <==> IsBusy(events, e)) && |sorted| == |busy|
      && (forall e :: e in sorted ==> e.StartIsAware())
  {
    hide IsBusy;
    SortKeepsElements(StartsFirst, busy);
    SortKeepsDistinct(StartsFirst, IdOf, busy);
    SameElements(SortBy(StartsFirst, busy), busy);
  }

  function StartRank(rank: Stamp -> int, e: Event): int {
    if e.start.Some? then rank(e.start.value) else 0
  }

  function ByRank(rank: Stamp -> int): (Event, Event) -> bool {
    (a, b) => StartRank(rank, a) <= StartRank(rank, b)
  }

  ghost predicate OrderedStarts(s: seq<Event>) { forall i, j :: 0 <= i < j < |s| ==> StartsFirst(s[i], s[j]) }

  /** On one linear order the sorted starts ascend, so the first late start is followed by late ones only. */
  lemma RankedSort(rank: Stamp -> int, busy: seq<Event>)
    requires forall e, f :: e in busy && f in busy ==> RankedPair(rank, e, f)
    requires forall e :: e in busy ==> e.Timed()
    ensures var s := SortBy(StartsFirst, busy); SortedBy(ByRank(rank), s) && forall e :: e in s <==> e in busy
  {
    hide SortBy, SortedBy;
    forall x, y | x in busy && y in busy
      ensures StartsFirst(x, y) == ByRank(rank)(x, y)
    {
      assert RankedPair(rank, y, x);
    }
    SortByAgreement(StartsFirst, ByRank(rank), busy);
    assert TotalPreorder(ByRank(rank)) by { RankIsPreorder(rank); }
    SortIsSortedPermutation(ByRank(rank), busy);
    SameElements(SortBy(StartsFirst, busy), busy);
  }

  lemma RankIsPreorder(rank: Stamp -> int)
    ensures TotalPreorder(ByRank(rank))
  {
  }

  lemma RankedStops(rank: Stamp -> int, s: seq<Event>)
    requires forall e, f :: e in s && f in s ==> RankedPair(rank, e, f)
    requires SortedBy(ByRank(rank), s) && forall e :: e in s ==> e.Timed()
    ensures StopsWell(s) && OrderedStarts(s)
  {
    forall i, j | 0 <= i < j < |s|
      ensures StartsFirst(s[i], s[j]) && RankedPair(rank, s[j], s[i]) && StartRank(rank, s[i]) <= StartRank(rank, s[j])
    {
      assert s[i] in s && s[j] in s && ByRank(rank)(s[i], s[j]);
      assert RankedPair(rank, s[j], s[i]);
    }
    if AllTimed(s) {
      forall i, k | 0 <= i < k < |s|
        ensures MayStop(s, i, k)
      {
        RankedStop(rank, s, i, k);
      }
    }
  }

  lemma RankedStop(rank: Stamp -> int, s: seq<Event>, i: nat, k: nat)
    requires AllTimed(s) && i < k < |s|
    requires forall j :: i < j < |s| ==> RankedPair(rank, s[j], s[i])
    requires forall j :: k < j < |s| ==> StartRank(rank, s[k]) <= StartRank(rank, s[j])
    ensures MayStop(s, i, k)
  {
    if !Less(s[k].start.value, s[i].end.value) {
      forall j | k <= j < |s|
        ensures !Less(s[j].start.value, s[i].end.value)
      {
        assert RankedPair(rank, s[k], s[i]) && RankedPair(rank, s[j], s[i]);
      }
    }
  }

  /** With two events there is nothing after the first later one. */
  lemma TwoStopWell(s: seq<Event>)
    requires |s| <= 2 && forall e :: e in s ==> e.StartIsAware()
    ensures StopsWell(s)
  {
    if AllTimed(s) {
      forall i, k | 0 <= i < k < |s|
        ensures MayStop(s, i, k)
      {
      }
    }
  }

  ghost predicate PairAt(s: seq<Event>, i: nat, j: nat, p: Pair) {
    i < j < |s| && p == (s[i], s[j]) && s[i].Timed() && s[j].Timed() && Overlap(s[i], s[j])
  }

  lemma {:induction false} RowIsExact(s: seq<Event>, i: nat, end: nat)
    requires i < end <= |s| && AllTimed(s) && DistinctIds(s)
    ensures forall p :: p in Row(s, i, end) <==> exists j :: 0 <= j < end && PairAt(s, i, j, p)
    ensures forall x, y :: 0 <= x < y < |Row(s, i, end)| ==> Row(s, i, end)[x] != Row(s, i, end)[y]
  {
    if end > i + 1 {
      RowIsExact(s, i, end - 1);
      var before, all := Row(s, i, end - 1), Row(s, i, end);
      forall p
        ensures p in all <==> exists j :: 0 <= j < end && PairAt(s, i, j, p)
      {
        if p in before {
          var j :| 0 <= j < end - 1 && PairAt(s, i, j, p);
        }
        if p == (s[i], s[end - 1]) && Overlap(s[i], s[end - 1]) {
          assert PairAt(s, i, end - 1, p);
        }
      }
      forall x | 0 <= x < |before|
        ensures before[x] != (s[i], s[end - 1])
      {
        assert before[x] in before;
        var j :| 0 <= j < end - 1 && PairAt(s, i, j, before[x]);
      }
    }
  }

  lemma {:induction false} RowsAreExact(s: seq<Event>, n: nat)
    requires n <= |s| && AllTimed(s) && DistinctIds(s)
    ensures forall p :: p in Rows(s, n) <==> exists i, j :: 0 <= i < n && 0 <= j < |s| && PairAt(s, i, j, p)
    ensures forall x, y :: 0 <= x < y < |Rows(s, n)| ==> Rows(s, n)[x] != Rows(s, n)[y]
  {
    if n > 0 {
      RowsAreExact(s, n - 1);
      RowIsExact(s, n - 1, |s|);
      var before, row := Rows(s, n - 1), Row(s, n - 1, |s|);
      forall p | p in before
        ensures p !in row
      {
        var i, j :| 0 <= i < n - 1 && 0 <= j < |s| && PairAt(s, i, j, p);
      }
      forall x, y | 0 <= x < y < |before + row|
        ensures (before + row)[x] != (before + row)[y]
      {
        if x < |before| <= y {
          assert before[x] in before && row[y - |before|] in row;
        }
      }
    }
  }

  lemma {:induction false} RowIsOrdered(s: seq<Event>, i: nat, end: nat)
    requires i < end <= |s| && AllTimed(s) && DistinctIds(s) && OrderedStarts(s)
    ensures InStartOrder(Row(s, i, end))
  {
    if end > i + 1 {
      RowIsOrdered(s, i, end - 1);
      RowIsExact(s, i, end - 1);
      var before := Row(s, i, end - 1);
      hide OrderedStarts;
      forall x | 0 <= x < |before|
        ensures PairsFirst(before[x], (s[i], s[end - 1]))
      {
        assert before[x] in before;
        var j :| 0 <= j < end - 1 && PairAt(s, i, j, before[x]);
        StartsInOrder(s, i, i);
        StartsInOrder(s, j, end - 1);
      }
    }
  }

  lemma StartsInOrder(s: seq<Event>, i: nat, j: nat)
    requires OrderedStarts(s) && i <= j < |s|
    ensures StartsFirst(s[i], s[j])
  {
  }

  lemma {:induction false} RowsAreOrdered(s: seq<Event>, n: nat)
    requires n <= |s| && AllTimed(s) && DistinctIds(s) && OrderedStarts(s)
    ensures InStartOrder(Rows(s, n))
  {
    if n > 0 {
      RowsAreOrdered(s, n - 1);
      RowIsOrdered(s, n - 1, |s|);
      RowsAreExact(s, n - 1);
      RowIsExact(s, n - 1, |s|);
      var before, row := Rows(s, n - 1), Row(s, n - 1, |s|);
      hide Row, OrderedStarts, StartsFirst;
      forall x, y | 0 <= x < |before| && 0 <= y < |row|
        ensures PairsFirst(before[x], row[y])
      {
        assert before[x] in before && row[y] in row;
        var i, j :| 0 <= i < n - 1 && 0 <= j < |s| && PairAt(s, i, j, before[x]);
        StartsInOrder(s, i, n - 1);
        assert IdOf(s[i]) != IdOf(s[n - 1]);
      }
    }
  }

  lemma ReportedPairOverlaps(s: seq<Event>, p: Pair)
    requires AllTimed(s) && DistinctIds(s) && OrderedStarts(s) && p in Rows(s, |s|)
    ensures p.0 in s && p.1 in s && p.0.id != p.1.id && p.0.Timed() && p.1.Timed()
    ensures Overlap(p.0, p.1) && StartsFirst(p.0, p.1)
  {
    RowsAreExact(s, |s|);
    hide Rows;
    var i, j :| 0 <= i < |s| && 0 <= j < |s| && PairAt(s, i, j, p);
    assert StartsFirst(s[i], s[j]);
  }

  lemma OverlapIsReportedOnce(s: seq<Event>, a: Event, b: Event)
    requires AllTimed(s) && DistinctIds(s)
    requires a in s && b in s && a.id != b.id && a.Timed() && b.Timed() && Overlap(a, b)
    ensures (a, b) in Rows(s, |s|) <==> (b, a) !in Rows(s, |s|)
  {
    RowsAreExact(s, |s|);
    hide Rows;
    var i :| 0 <= i < |s| && s[i] == a;
    var j :| 0 <= j < |s| && s[j] == b;
    assert if i < j then PairAt(s, i, j, (a, b)) else PairAt(s, j, i, (b, a));
    OnlyOneOrder(s, a, b);
  }

  lemma OnlyOneOrder(s: seq<Event>, a: Event, b: Event)
    requires DistinctIds(s)
    ensures !((exists i: nat, j: nat :: PairAt(s, i, j, (a, b))) && (exists i: nat, j: nat :: PairAt(s, i, j, (b, a))))
  {
  }

  /** The naive pairs of events with ordered starts are the overlap relation, each pair once. */
  lemma RowsReportExactly(events: seq<Event>, s: seq<Event>)
    requires AllTimed(s) && DistinctIds(s) && OrderedStarts(s)
    requires forall e :: e in s <==> IsBusy(events, e)
    ensures ReportsExactly(events, Rows(s, |s|))
  {
    hide Rows, IsBusy, Overlap, DistinctIds, OrderedStarts, StartsFirst, InStartOrder;
    RowsAreExact(s, |s|);
    RowsAreOrdered(s, |s|);
    forall p | p in Rows(s, |s|)
      ensures IsBusy(events, p.0) && IsBusy(events, p.1) && p.0.id != p.1.id && Overlap(p.0, p.1) &&
        StartsFirst(p.0, p.1)
    {
      ReportedPairOverlaps(s, p);
    }
    forall a, b | IsBusy(events, a) && IsBusy(events, b) && a.id != b.id && Overlap(a, b)
      ensures (a, b) in Rows(s, |s|) <==> (b, a) !in Rows(s, |s|)
    {
      OverlapIsReportedOnce(s, a, b);
    }
  }

  lemma ThreeAreDistinct(busy: seq<Event>)
    requires DistinctIds(busy) && |busy| > 2
    ensures busy[0] != busy[1] && busy[0] != busy[2] && busy[1] != busy[2]
  {
    assert IdOf(busy[0]) != IdOf(busy[1]) && IdOf(busy[0]) != IdOf(busy[2]) && IdOf(busy[1]) != IdOf(busy[2]);
  }

  lemma FewEvents(events: seq<Event>, busy: seq<Event>, a: Event, b: Event)
    requires OnlyThese(events, a, b) && DistinctIds(busy) && forall e :: e in busy <==> IsBusy(events, e)
    ensures |busy| <= 2
  {
    hide IsBusy, DistinctIds;
    if |busy| > 2 {
      assert busy[0] in busy && busy[1] in busy && busy[2] in busy;
      ThreeAreDistinct(busy);
    }
  }

  lemma TwoAreOrdered(busy: seq<Event>)
    requires |busy| <= 2
    ensures OrderedStarts(SortBy(StartsFirst, busy))
  {
    SortKeepsElements(StartsFirst, busy);
    SameElements(SortBy(StartsFirst, busy), busy);
    if |busy| == 2 {
      var a, b := busy[0], busy[1];
      assert busy[1..] == [b] && [b][1..] == [];
      assert SortBy(StartsFirst, [b]) == [b];
      assert InsertBy(StartsFirst, a, []) == [a];
      assert SortBy(StartsFirst, busy) == if StartsFirst(a, b) then [a, b] else [b, a];
    }
  }

  /** Where stopping is safe, the scan of the sorted busy events is the exact report. */
  lemma ScanReports(events: seq<Event>, busy: seq<Event>, pairs: seq<Pair>)
    requires DistinctIds(busy) && forall e :: e in busy <==> IsBusy(events, e)
    requires forall e :: e in busy ==> e.Timed()
    requires var s := SortBy(StartsFirst, busy);
      && DistinctIds(s) && (forall e :: e in s <==> IsBusy(events, e)) && |s| == |busy| && AllTimed(s)
      && (StopsWell(s) ==> pairs == Rows(s, |s|))
    ensures Comparable(events) ==> ReportsExactly(events, pairs)
  {
    hide IsBusy, ReportsExactly, Rows, StopsWell, OrderedStarts, RankedPair, SortBy;
    var s := SortBy(StartsFirst, busy);
    if exists rank :: Ranked(rank, events) {
      var rank :| Ranked(rank, events);
      RankedSort(rank, busy);
      RankedStops(rank, s);
      RowsReportExactly(events, s);
    } else if exists a, b :: OnlyThese(events, a, b) {
      var a, b :| OnlyThese(events, a, b);
      FewEvents(events, busy, a, b);
      TwoStopWell(s);
      TwoAreOrdered(busy);
      RowsReportExactly(events, s);
    }
  }

  // ---------------------------------------------------------------- instants

  function InstantOf(x: Stamp): int { if x.Aware? then x.instant else 0 }

  /** Being alike is the same as Python's comparison being that of instants. */
  lemma AlikeIsRanked(e: Event, f: Event)
    ensures AlikePair(e, f) <==> RankedPair(InstantOf, e, f)
  {
  }

  lemma AlikeReadsInstants(e: Event, f: Event)
    requires AlikePair(e, f) && AlikePair(f, e) && e.IsAware() && f.IsAware()
    ensures Overlap(e, f) <==> OverlapByInstant(e, f)
    ensures StartsFirst(e, f) <==> e.start.value.instant <= f.start.value.instant
    ensures e == f ==> (e.Timed() <==> e.TimedByInstant())
  {
  }

  /** Where every two times of one zone are ordered alike, each run does exactly what is documented. */
  lemma AlikeMeansDocumented(events: seq<Event>, r: Result<seq<Pair>, Invalid>)
    requires Behaves(events, r)
    ensures AllAlike(events) ==> Documented(events, r)
  {
    hide IsBusy, Overlap, OverlapByInstant, StartsFirst, AlikePair, RankedPair;
    if AllAlike(events) {
      forall e, f | IsBusy(events, e) && IsBusy(events, f)
        ensures RankedPair(InstantOf, e, f)
        ensures e.IsAware() && f.IsAware() ==>
          && (Overlap(e, f) <==> OverlapByInstant(e, f))
          && (StartsFirst(e, f) <==> e.start.value.instant <= f.start.value.instant)
          && (e == f ==> (e.Timed() <==> e.TimedByInstant()))
      {
        AlikeIsRanked(e, f);
        if e.IsAware() && f.IsAware() {
          AlikeReadsInstants(e, f);
        }
      }
      assert Ranked(InstantOf, events);
    }
  }

  ghost predicate Over(stamps: set<Stamp>, events: seq<Event>) {
    forall e :: e in events && e.IsAware() ==> e.start.value in stamps && e.end.value in stamps
  }

  /** Every run on events over these times does what is documented. */
  ghost predicate DocumentedOver(stamps: set<Stamp>) {
    forall events, r :: Over(stamps, events) && Behaves(events, r) ==> Documented(events, r)
  }

  ghost predicate AlikeOver(stamps: set<Stamp>)
    requires forall x :: x in stamps ==> x.Aware?
  {
    forall x, y :: x in stamps && y in stamps ==> Alike(x, y)
  }

  /**
   * The exact condition: over a set of times the documented behaviour holds of all event lists if and only
   * if every two of them that share a zone are ordered alike by wall and by instant.
   */
  lemma DocumentedExactlyWhenAlike(stamps: set<Stamp>)
    requires forall x :: x in stamps ==> x.Aware?
    ensures DocumentedOver(stamps) <==> AlikeOver(stamps)
  {
    hide Behaves, Documented, Alike;
    if AlikeOver(stamps) {
      forall events, r | Over(stamps, events) && Behaves(events, r)
        ensures Documented(events, r)
      {
        OverAlike(stamps, events);
        AlikeMeansDocumented(events, r);
      }
    }
    if DocumentedOver(stamps) {
      forall x, y | x in stamps && y in stamps
        ensures Alike(x, y)
      {
        var e := Timed(x, y);
        assert Over(stamps, [e]);
        OneEventDecides(x, y);
      }
    }
  }

  lemma OverAlike(stamps: set<Stamp>, events: seq<Event>)
    requires (forall x :: x in stamps ==> x.Aware?) && AlikeOver(stamps) && Over(stamps, events)
    ensures AllAlike(events)
  {
    hide Alike;
    forall e, f | IsBusy(events, e) && IsBusy(events, f)
      ensures AlikePair(e, f)
    {
      assert e in events && f in events;
    }
  }

  /** A participating event from `x` to `y`. */
  function Timed(x: Stamp, y: Stamp): Event {
    Event([], Some(x), Some(y), false, false, false)
  }

  lemma OnlyEvent(e: Event)
    ensures forall f :: IsBusy([e], f) <==> f == e && e.Participates()
    ensures Comparable([e])
  {
    assert [e][0] == e;
    assert OnlyThese([e], e, e);
  }

  /** One event from `x` to `y` is already handled as documented only if the two times are ordered alike. */
  lemma OneEventDecides(x: Stamp, y: Stamp)
    requires x.Aware? && y.Aware?
    requires forall r :: Behaves([Timed(x, y)], r) ==> Documented([Timed(x, y)], r)
    ensures Alike(x, y)
  {
    var e := Timed(x, y);
    OnlyEvent(e);
    hide IsBusy, Comparable;
    assert IsBusy([e], e);
    if Less(x, y) {
      assert Behaves([e], Ok([]));
    } else {
      assert Behaves([e], Err(Invalid));
    }
  }

  /** True of UTC and of every fixed offset. */
  lemma FixedOffsetsAreAlike(offset: nat -> int, events: seq<Event>)
    requires forall e :: IsBusy(events, e) && e.IsAware() ==>
      && e.start.value.wall == e.start.value.instant + offset(e.start.value.zone)
      && e.end.value.wall == e.end.value.instant + offset(e.end.value.zone)
    ensures AllAlike(events)
  {
    hide IsBusy;
  }

  /** 01:50 before the clocks go back to 01:20 after it: thirty minutes long, and refused. */
  lemma FoldedEventIsRefused(r: Result<seq<Pair>, Invalid>)
    requires Behaves([Timed(Aware(7, 110, 350), Aware(7, 80, 380))], r)
    ensures r.Err? && !Documented([Timed(Aware(7, 110, 350), Aware(7, 80, 380))], r)
  {
    var e := Timed(Aware(7, 110, 350), Aware(7, 80, 380));
    OnlyEvent(e);
    hide IsBusy, Comparable;
    assert IsBusy([e], e) && !e.Timed();
  }

  const BEFORE_FOLD := Event([97], Some(Aware(7, 70, 310)), Some(Aware(7, 100, 340)), false, false, false)
  const AFTER_FOLD := Event([98], Some(Aware(7, 80, 380)), Some(Aware(7, 110, 410)), false, false, false)

  /** 01:10 to 01:40 before the clocks go back and 01:20 to 01:50 after: forty minutes apart, and reported. */
  lemma EventsApartAreReported(r: Result<seq<Pair>, Invalid>)
    requires Behaves([BEFORE_FOLD, AFTER_FOLD], r)
    ensures r.Ok? && ((BEFORE_FOLD, AFTER_FOLD) in r.value || (AFTER_FOLD, BEFORE_FOLD) in r.value)
    ensures !Documented([BEFORE_FOLD, AFTER_FOLD], r)
  {
    var events := [BEFORE_FOLD, AFTER_FOLD];
    assert events[0] == BEFORE_FOLD && events[1] == AFTER_FOLD;
    assert forall e :: IsBusy(events, e) <==> e == BEFORE_FOLD || e == AFTER_FOLD;
    assert OnlyThese(events, BEFORE_FOLD, AFTER_FOLD);
    hide IsBusy, OnlyThese;
  }
}
