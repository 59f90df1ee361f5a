/**
 * Civil time in one zone: a list of offset changes, the two conversions of the platform's zone
 * database with PEP 495 fold semantics, and the wall-time resolution of
 * backend/src/ai_employee/domain/calendar_availability.py. Instants and wall times are microseconds.
 */
module Zones {
  import opened Prelude

  const MINUTE := 60_000_000
  const DAY := 86_400_000_000

  /** From `at` on, wall clocks show UTC plus `offset`. */
  datatype Transition = Transition(at: int, offset: int)

  datatype Zone = Zone(initial: int, transitions: seq<Transition>) {
    /** The offset after the first `k` transitions. */
    function Offset(k: nat): int
      requires k <= |transitions|
    {
      if k == 0 then initial else transitions[k - 1].offset
    }

    /** The wall time at which transition `i` takes over, for a wall time read with the given fold. */
    function Threshold(i: nat, fold: bool): int
      requires i < |transitions|
    {
      var before, after := Offset(i), Offset(i + 1);
      transitions[i].at + (if (before < after) == fold then before else after)
    }

    /** Changes are ordered, and each has settled on the wall clock before the next one starts. */
    ghost predicate Valid() {
      forall i :: 0 <= i < |transitions| - 1 ==>
        transitions[i].at < transitions[i + 1].at && Threshold(i, false) <= Threshold(i + 1, true)
    }

    function Instants(): seq<int> {
      seq(|transitions|, i requires 0 <= i < |transitions| => transitions[i].at)
    }

    function Thresholds(fold: bool): seq<int> {
      seq(|transitions|, i requires 0 <= i < |transitions| => Threshold(i, fold))
    }

    function Segment(instant: int): (k: nat)
      ensures k <= |transitions|
    {
      Bisect(Instants(), instant)
    }

    function Local(instant: int): int { instant + Offset(Segment(instant)) }

    function LocalDate(instant: int): int { Local(instant) / DAY }

    /** True when the wall time of this instant has already been shown once before. */
    function Fold(instant: int): bool {
      var k := Segment(instant);
      k > 0 && Offset(k - 1) - Offset(k) > instant - transitions[k - 1].at
    }

    /** `utcoffset()` of a wall time read with the given fold. */
    function WallOffset(wall: int, fold: bool): int { Offset(Bisect(Thresholds(fold), wall)) }

    function ToUtc(wall: int, fold: bool): int { wall - WallOffset(wall, fold) }

    /** `_resolve_wall_time`. */
    function Resolve(wall: int): Option<int> {
      var instant := ToUtc(wall, false);
      if Local(instant) != wall || Fold(instant) then None else Some(instant)
    }
  }

  /** `bisect_right`. */
  function Bisect(s: seq<int>, x: int): (k: nat)
    ensures k <= |s|
    ensures k > 0 ==> s[k - 1] <= x
    ensures forall j :: k <= j < |s| ==> x < s[j]
  {
    if s == [] then 0
    else if s[|s| - 1] <= x then |s|
    else Bisect(s[..|s| - 1], x)
  }

  // ---------------------------------------------------------------- the shape of a valid zone

  lemma {:induction false} TransitionsAreOrdered(z: Zone, i: nat, j: nat)
    requires z.Valid() && i <= j < |z.transitions|
    ensures z.transitions[i].at <= z.transitions[j].at
    ensures i < j ==> z.transitions[i].at < z.transitions[j].at && z.Threshold(i, false) <= z.Threshold(j, true)
    decreases j - i
  {
    if i < j {
      TransitionsAreOrdered(z, i, j - 1);
      assert z.transitions[j - 1].at < z.transitions[j - 1 + 1].at;
      assert z.Threshold(j - 1, false) <= z.Threshold(j - 1 + 1, true);
      assert z.Threshold(j - 1, true) <= z.Threshold(j - 1, false);
    }
  }

  lemma SegmentBounds(z: Zone, u: int)
    ensures var k := z.Segment(u);
      && (k > 0 ==> z.transitions[k - 1].at <= u)
      && (forall j :: k <= j < |z.transitions| ==> u < z.transitions[j].at)
  {
    forall j | z.Segment(u) <= j < |z.transitions|
      ensures u < z.transitions[j].at
    {
      assert z.Instants()[j] == z.transitions[j].at;
    }
  }

  /** Everything shown in an earlier segment lies below a later threshold, and conversely. */
  lemma LocalBounds(z: Zone, u: int, i: nat)
    requires z.Valid() && i < |z.transitions|
    ensures u < z.transitions[i].at ==> z.Local(u) < z.Threshold(i, false)
    ensures u >= z.transitions[i].at ==> z.Local(u) >= z.Threshold(i, true)
    ensures u < z.transitions[i].at && z.Local(u) >= z.Threshold(i, true) ==> z.Segment(u) == i
    ensures u >= z.transitions[i].at && z.Local(u) < z.Threshold(i, false) ==> z.Segment(u) == i + 1
  {
    SegmentBounds(z, u);
    var k := z.Segment(u);
    if k <= i {
      TransitionsAreOrdered(z, k, i);
    } else {
      TransitionsAreOrdered(z, i, k - 1);
    }
  }

  /** The segment that a wall time read with fold 0 selects. */
  lemma WallSegmentBounds(z: Zone, wall: int, fold: bool)
    ensures var k := Bisect(z.Thresholds(fold), wall);
      && k <= |z.transitions|
      && (k > 0 ==> z.Threshold(k - 1, fold) <= wall)
      && (k < |z.transitions| ==> wall < z.Threshold(k, fold))
  {
    var k := Bisect(z.Thresholds(fold), wall);
    if k < |z.transitions| {
      assert z.Thresholds(fold)[k] == z.Threshold(k, fold);
    }
  }

  // ---------------------------------------------------------------- resolution

  /** Before the fold-0 segment nothing reaches the wall time; inside it, the clock runs steadily. */
  lemma BelowWallSegment(z: Zone, wall: int, v: int)
    requires z.Valid()
    ensures var k := Bisect(z.Thresholds(false), wall);
      k > 0 && v < z.transitions[k - 1].at ==> z.Local(v) < wall
  {
    var k := Bisect(z.Thresholds(false), wall);
    WallSegmentBounds(z, wall, false);
    if k > 0 {
      LocalBounds(z, v, k - 1);
    }
  }

  /** From the next transition on, a wall time inside the skipped hour is already past. */
  lemma AboveWallSegment(z: Zone, wall: int, v: int)
    requires z.Valid()
    ensures var k := Bisect(z.Thresholds(false), wall);
      k < |z.transitions| && z.Offset(k) <= z.Offset(k + 1) && v >= z.transitions[k].at ==> z.Local(v) > wall
  {
    var k := Bisect(z.Thresholds(false), wall);
    WallSegmentBounds(z, wall, false);
    if k < |z.transitions| {
      LocalBounds(z, v, k);
      SegmentBounds(z, v);
      if v >= z.transitions[k].at && z.Segment(v) > k + 1 {
        TransitionsAreOrdered(z, k + 1, z.Segment(v) - 1);
        LocalBounds(z, v, z.Segment(v) - 1);
        TransitionsAreOrdered(z, k, z.Segment(v) - 1);
      }
    }
  }

  /** Between two changes the clock shows the instant plus one offset. */
  lemma SteadyWithin(z: Zone, k: nat, v: int)
    requires z.Valid() && k <= |z.transitions|
    requires k > 0 ==> z.transitions[k - 1].at <= v
    requires k < |z.transitions| ==> v < z.transitions[k].at
    ensures z.Segment(v) == k && z.Local(v) == v + z.Offset(k)
  {
    SegmentBounds(z, v);
    var s := z.Segment(v);
    if s > k {
      TransitionsAreOrdered(z, k, s - 1);
    }
  }

  /** The fold-0 reading falls in its own segment unless the wall time was skipped. */
  lemma FoldZeroReading(z: Zone, wall: int)
    requires z.Valid()
    ensures var k, u := Bisect(z.Thresholds(false), wall), z.ToUtc(wall, false);
      && (k > 0 ==> z.transitions[k - 1].at <= u)
      && (if k < |z.transitions| && z.transitions[k].at <= u
          then z.Offset(k) < z.Offset(k + 1) && z.Threshold(k, true) <= wall
          else z.Segment(u) == k && z.Local(u) == wall && !z.Fold(u))
  {
    var k, u := Bisect(z.Thresholds(false), wall), z.ToUtc(wall, false);
    WallSegmentBounds(z, wall, false);
    if !(k < |z.transitions| && z.transitions[k].at <= u) {
      SteadyWithin(z, k, u);
    }
  }

  /** A wall time whose fold-0 reading falls after the next change was skipped: nothing shows it. */
  lemma SkippedIsNeverShown(z: Zone, wall: int, v: int)
    requires z.Valid()
    requires var k := Bisect(z.Thresholds(false), wall);
      k < |z.transitions| && z.transitions[k].at <= z.ToUtc(wall, false)
    ensures z.Local(v) != wall
  {
    var k := Bisect(z.Thresholds(false), wall);
    FoldZeroReading(z, wall);
    BelowWallSegment(z, wall, v);
    AboveWallSegment(z, wall, v);
    if (k > 0 ==> z.transitions[k - 1].at <= v) && v < z.transitions[k].at {
      SteadyWithin(z, k, v);
    }
  }

  /** Before its fold-0 reading a wall time has not been reached. */
  lemma EarlierShowsLess(z: Zone, wall: int, v: int)
    requires z.Valid() && v < z.ToUtc(wall, false)
    requires var k := Bisect(z.Thresholds(false), wall);
      k == |z.transitions| || z.ToUtc(wall, false) < z.transitions[k].at
    ensures z.Local(v) < wall
  {
    var k := Bisect(z.Thresholds(false), wall);
    BelowWallSegment(z, wall, v);
    if k > 0 ==> z.transitions[k - 1].at <= v {
      SteadyWithin(z, k, v);
    }
  }

  /**
   * Resolution finds exactly the earliest instant that shows the wall time, and reports nothing
   * exactly when no instant shows it.
   */
  lemma ResolveIsEarliest(z: Zone, wall: int)
    requires z.Valid()
    ensures z.Resolve(wall).Some? ==>
      var u := z.Resolve(wall).value;
      z.Local(u) == wall && forall v :: v < u ==> z.Local(v) < wall
    ensures z.Resolve(wall).None? ==> forall v :: z.Local(v) != wall
  {
    var k, u := Bisect(z.Thresholds(false), wall), z.ToUtc(wall, false);
    FoldZeroReading(z, wall);
    if k < |z.transitions| && z.transitions[k].at <= u {
      forall v
        ensures z.Local(v) != wall
      {
        SkippedIsNeverShown(z, wall, v);
      }
    } else {
      forall v | v < u
        ensures z.Local(v) < wall
      {
        EarlierShowsLess(z, wall, v);
      }
    }
  }

  /** Later wall times resolve to later instants. */
  lemma ResolveIsStrictlyIncreasing(z: Zone, earlier: int, later: int)
    requires z.Valid() && earlier < later
    requires z.Resolve(earlier).Some? && z.Resolve(later).Some?
    ensures z.Resolve(earlier).value < z.Resolve(later).value
  {
    ResolveIsEarliest(z, earlier);
    ResolveIsEarliest(z, later);
  }
}
