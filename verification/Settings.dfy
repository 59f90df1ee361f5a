/**
 * Weekly working hours, backend/src/ai_employee/domain/settings.py: parsing the settings mapping,
 * the order and disjointness that the meeting search relies on, and the way back to the mapping.
 */
module Settings {
  import opened Prelude
  import opened Sorting

  /** Local HH:MM endpoints as minutes of the day. */
  datatype WorkingInterval = WorkingInterval(start: int, end: int) {
    predicate Proper() { 0 <= start < end < 1440 }
  }

  datatype WorkingHours = WorkingHours(days: seq<seq<WorkingInterval>>) {
    /** Seven days of proper intervals, in order and without overlap. */
    ghost predicate Valid() {
      |days| == 7 && forall d :: 0 <= d < 7 ==> ValidDay(days[d])
    }

    /** `intervals_for` the weekday of a day counted from 1970-01-01, a Thursday. */
    function For(day: int): seq<WorkingInterval>
      requires Valid()
    {
      days[(day + 3) % 7]
    }
  }

  /** 1970-01-05 was a Monday, and each day is followed by the next weekday. */
  lemma WeekdaysFollow(h: WorkingHours, day: int)
    requires h.Valid()
    ensures h.For(4) == h.days[0]
    ensures forall d :: 0 <= d < 7 && day % 7 == (d + 4) % 7 ==> h.For(day) == h.days[d]
  {
  }

  ghost predicate ValidDay(day: seq<WorkingInterval>) {
    && (forall i :: 0 <= i < |day| ==> day[i].Proper())
    && (forall i, j :: 0 <= i < j < |day| ==> day[i].end <= day[j].start)
  }

  datatype Invalid = Invalid

  /** The settings value: each day a list of endpoint pairs. */
  type Mapping = map<string, seq<seq<string>>>

  const WEEKDAY_NAMES: seq<string> :=
    ["monday", "tuesday", "wednesday", "thursday", "friday", "saturday", "sunday"]

  // ---------------------------------------------------------------- times

  function Digit(c: char): Option<int> {
    if '0' <= c <= '9' then Some(c as int - '0' as int) else None
  }

  /** `_parse_working_time`: zero-padded `HH:MM`. */
  function ParseTime(s: string): Option<int> {
    if |s| != 5 || s[2] != ':' then None
    else
      var a, b, c, d := Digit(s[0]), Digit(s[1]), Digit(s[3]), Digit(s[4]);
      if a.None? || b.None? || c.None? || d.None? || a.value * 10 + b.value >= 24 || c.value >= 6 then None
      else Some((a.value * 10 + b.value) * 60 + c.value * 10 + d.value)
  }

  function DigitChar(n: int): char
    requires 0 <= n < 10
  {
    ('0' as int + n) as char
  }

  /** `strftime("%H:%M")`. */
  function FormatTime(minutes: int): string
    requires 0 <= minutes < 1440
  {
    var h, m := minutes / 60, minutes % 60;
    [DigitChar(h / 10), DigitChar(h % 10), ':', DigitChar(m / 10), DigitChar(m % 10)]
  }

  /** The accepted texts are exactly the formatted minutes of a day. */
  lemma ParsesExactlyFormatted(s: string, minutes: int)
    ensures ParseTime(s) == Some(minutes) <==> 0 <= minutes < 1440 && s == FormatTime(minutes)
  {
    if ParseTime(s) == Some(minutes) {
      FormatOfParse(s);
    }
    if 0 <= minutes < 1440 {
      ParseOfFormat(minutes);
    }
  }

  lemma FormatOfParse(s: string)
    requires ParseTime(s).Some?
    ensures 0 <= ParseTime(s).value < 1440 && FormatTime(ParseTime(s).value) == s
  {
    var a, b, c, d := Digit(s[0]).value, Digit(s[1]).value, Digit(s[3]).value, Digit(s[4]).value;
    var minutes := ParseTime(s).value;
    assert minutes / 60 == a * 10 + b && minutes % 60 == c * 10 + d;
    assert (a * 10 + b) / 10 == a && (a * 10 + b) % 10 == b && (c * 10 + d) / 10 == c && (c * 10 + d) % 10 == d;
    assert s == [s[0], s[1], s[2], s[3], s[4]];
  }

  lemma ParseOfFormat(minutes: int)
    requires 0 <= minutes < 1440
    ensures ParseTime(FormatTime(minutes)) == Some(minutes)
  {
  }

  // ---------------------------------------------------------------- one day

  function ParseInterval(raw: seq<string>): Option<WorkingInterval> {
    if |raw| != 2 || ParseTime(raw[0]).None? || ParseTime(raw[1]).None? then None
    else
      var w := WorkingInterval(ParseTime(raw[0]).value, ParseTime(raw[1]).value);
      if w.end <= w.start then None else Some(w)
  }

  /** The order of `WorkingInterval` values. */
  predicate Before(a: WorkingInterval, b: WorkingInterval) {
    a.start < b.start || (a.start == b.start && a.end <= b.end)
  }

  predicate Apart(a: WorkingInterval, b: WorkingInterval) { a.end <= b.start || b.end <= a.start }

  /** No two intervals of the list overlap, in whatever order they come. */
  ghost predicate Disjoint(s: seq<WorkingInterval>) {
    forall i, j :: 0 <= i < j < |s| ==> Apart(s[i], s[j])
  }

  ghost predicate Parses(raws: seq<seq<string>>) {
    forall i :: 0 <= i < |raws| ==> ParseInterval(raws[i]).Some?
  }

  ghost function Parsed(raws: seq<seq<string>>): seq<WorkingInterval>
    requires Parses(raws)
  {
    seq(|raws|, i requires 0 <= i < |raws| => ParseInterval(raws[i]).value)
  }

  lemma {:induction false} InsertKeepsDisjoint(x: WorkingInterval, s: seq<WorkingInterval>)
    ensures Disjoint(InsertBy(Before, x, s)) <==> Disjoint([x] + s)
  {
    if s == [] {
      assert [x] + s == [x];
    } else if !Before(x, s[0]) {
      var rest := InsertBy(Before, x, s[1..]);
      InsertKeepsDisjoint(x, s[1..]);
      InsertKeepsElements(Before, x, s[1..]);
      SameElements(rest, [x] + s[1..]);
      assert s == [s[0]] + s[1..];
      assert forall y :: y in s <==> y == s[0] || y in s[1..];
      ConsDisjoint(s[0], rest);
      ConsDisjoint(x, s[1..]);
      ConsDisjoint(x, s);
      ConsDisjoint(s[0], s[1..]);
      assert s[0] in s && x in rest && (Apart(x, s[0]) <==> Apart(s[0], x));
    }
  }

  lemma ConsDisjoint(x: WorkingInterval, s: seq<WorkingInterval>)
    ensures Disjoint([x] + s) <==> Disjoint(s) && forall y :: y in s ==> Apart(x, y)
  {
    var all := [x] + s;
    if Disjoint(all) {
      forall i, j | 0 <= i < j < |s|
        ensures Apart(s[i], s[j])
      {
        assert all[i + 1] == s[i] && all[j + 1] == s[j];
      }
      forall y | y in s
        ensures Apart(x, y)
      {
        var i :| 0 <= i < |s| && s[i] == y;
        assert all[0] == x && all[i + 1] == y;
      }
    }
  }

  lemma {:induction false} SortKeepsDisjoint(s: seq<WorkingInterval>)
    ensures Disjoint(SortBy(Before, s)) <==> Disjoint(s)
  {
    if s != [] {
      var rest := SortBy(Before, s[1..]);
      SortKeepsDisjoint(s[1..]);
      SortIsSortedPermutation(Before, s[1..]);
      SameElements(rest, s[1..]);
      InsertKeepsDisjoint(s[0], rest);
      assert s == [s[0]] + s[1..];
      ConsDisjoint(s[0], rest);
      ConsDisjoint(s[0], s[1..]);
    }
  }

  /** On sorted proper intervals, looking at neighbours decides the overlap of all pairs. */
  lemma {:induction false} NeighboursDecide(s: seq<WorkingInterval>)
    requires SortedBy(Before, s) && forall i :: 0 <= i < |s| ==> s[i].Proper()
    ensures (forall i :: 1 <= i < |s| ==> s[i - 1].end <= s[i].start) <==> ValidDay(s)
    ensures ValidDay(s) <==> Disjoint(s)
  {
    if forall i :: 1 <= i < |s| ==> s[i - 1].end <= s[i].start {
      forall i, j | 0 <= i < j < |s|
        ensures s[i].end <= s[j].start
      {
        EndsBefore(s, i, j);
      }
    }
    if Disjoint(s) {
      forall i, j | 0 <= i < j < |s|
        ensures s[i].end <= s[j].start
      {
        assert Before(s[i], s[j]) && Apart(s[i], s[j]);
      }
    }
  }

  lemma {:induction false} EndsBefore(s: seq<WorkingInterval>, i: nat, j: nat)
    requires i < j < |s| && forall k :: 0 <= k < |s| ==> s[k].Proper()
    requires forall k :: 1 <= k < |s| ==> s[k - 1].end <= s[k].start
    ensures s[i].end <= s[j].start
    decreases j - i
  {
    if i + 1 < j {
      EndsBefore(s, i, j - 1);
    }
  }

  /** One day of `from_mapping` and its checks: it passes exactly on parsing intervals that do not overlap. */
  method ParseDay(raws: seq<seq<string>>) returns (r: Result<seq<WorkingInterval>, Invalid>)
    ensures r.Ok? <==> Parses(raws) && Disjoint(Parsed(raws))
    ensures r.Ok? ==> r.value == SortBy(Before, Parsed(raws)) && ValidDay(r.value)
  {
    var intervals := ParseIntervals(raws);
    if intervals.Err? {
      return Err(Invalid);
    }
    var day := SortBy(Before, intervals.value);
    SortedDay(raws, day);
    hide SortBy, Disjoint, ValidDay, Parses;
    var ordered := IsOrdered(day);
    r := if ordered then Ok(day) else Err(Invalid);
  }

  method ParseIntervals(raws: seq<seq<string>>) returns (r: Result<seq<WorkingInterval>, Invalid>)
    ensures r.Ok? <==> Parses(raws)
    ensures r.Ok? ==> r.value == Parsed(raws)
  {
    var intervals := [];
    for i := 0 to |raws|
      invariant Parses(raws[..i]) && intervals == Parsed(raws[..i])
    {
      var parsed := ParseInterval(raws[i]);
      if parsed.None? {
        return Err(Invalid);
      }
      intervals := intervals + [parsed.value];
      assert raws[..i + 1] == raws[..i] + [raws[i]];
    }
    assert raws[..|raws|] == raws;
    r := Ok(intervals);
  }

  /** The overlap check of the constructor, on neighbours. */
  method IsOrdered(day: seq<WorkingInterval>) returns (ordered: bool)
    ensures ordered <==> forall i :: 1 <= i < |day| ==> day[i - 1].end <= day[i].start
  {
    for i := 0 to |day|
      invariant forall k :: 1 <= k < i ==> day[k - 1].end <= day[k].start
    {
      if i > 0 && day[i].start < day[i - 1].end {
        return false;
      }
    }
    ordered := true;
  }

  lemma SortedDay(raws: seq<seq<string>>, day: seq<WorkingInterval>)
    requires Parses(raws) && day == SortBy(Before, Parsed(raws))
    ensures (forall i :: 1 <= i < |day| ==> day[i - 1].end <= day[i].start) <==> ValidDay(day)
    ensures ValidDay(day) <==> Disjoint(Parsed(raws))
  {
    var intervals := Parsed(raws);
    SortIsSortedPermutation(Before, intervals);
    SortKeepsDisjoint(intervals);
    SortedIsProper(raws, day);
    NeighboursDecide(day);
  }

  lemma SortedIsProper(raws: seq<seq<string>>, day: seq<WorkingInterval>)
    requires Parses(raws) && multiset(day) == multiset(Parsed(raws))
    ensures forall i :: 0 <= i < |day| ==> day[i].Proper()
  {
    SameElements(day, Parsed(raws));
    forall i | 0 <= i < |day|
      ensures day[i].Proper()
    {
      assert day[i] in Parsed(raws);
    }
  }

  // ---------------------------------------------------------------- the week

  ghost predicate Acceptable(value: Mapping) {
    && value.Keys == set name | name in WEEKDAY_NAMES
    && forall name :: name in value ==> Parses(value[name]) && Disjoint(Parsed(value[name]))
  }

  /** What one day of the mapping becomes. */
  ghost predicate DayOf(raws: seq<seq<string>>, day: seq<WorkingInterval>) {
    Parses(raws) && Disjoint(Parsed(raws)) && ValidDay(day) && day == SortBy(Before, Parsed(raws))
  }

  /**
   * `from_mapping`: exactly the seven weekdays, each parsing and free of overlap in any order; the
   * result is sorted.
   */
  method FromMapping(value: Mapping) returns (r: Result<WorkingHours, Invalid>)
    ensures r.Ok? <==> Acceptable(value)
    ensures r.Ok? ==> r.value.Valid() && forall d :: 0 <= d < 7 ==>
      r.value.days[d] == SortBy(Before, Parsed(value[WEEKDAY_NAMES[d]]))
  {
    hide DayOf;
    if value.Keys != set name | name in WEEKDAY_NAMES {
      return Err(Invalid);
    }
    var days: seq<seq<WorkingInterval>> := [];
    for d := 0 to |WEEKDAY_NAMES|
      invariant |days| == d
      invariant forall k :: 0 <= k < d ==> DayOf(value[WEEKDAY_NAMES[k]], days[k])
    {
      var day := DayOfMapping(value, d);
      if day.Err? {
        return Err(Invalid);
      }
      days := days + [day.value];
    }
    WeekIsAcceptable(value, days);
    r := Ok(WorkingHours(days));
  }

  method DayOfMapping(value: Mapping, d: nat) returns (r: Result<seq<WorkingInterval>, Invalid>)
    requires value.Keys == (set name | name in WEEKDAY_NAMES) && d < |WEEKDAY_NAMES|
    ensures WEEKDAY_NAMES[d] in value
    ensures r.Ok? ==> DayOf(value[WEEKDAY_NAMES[d]], r.value)
    ensures r.Err? ==> !Acceptable(value)
  {
    hide SortBy, Parses, Disjoint, ValidDay, Parsed;
    var name := WEEKDAY_NAMES[d];
    assert name in value.Keys;
    r := ParseDay(value[name]);
  }

  lemma WeekIsAcceptable(value: Mapping, days: seq<seq<WorkingInterval>>)
    requires value.Keys == (set name | name in WEEKDAY_NAMES) && |days| == |WEEKDAY_NAMES|
    requires forall k :: 0 <= k < |days| ==> WEEKDAY_NAMES[k] in value && DayOf(value[WEEKDAY_NAMES[k]], days[k])
    ensures |days| == 7 && Acceptable(value) && WorkingHours(days).Valid()
    ensures forall d :: 0 <= d < 7 ==> days[d] == SortBy(Before, Parsed(value[WEEKDAY_NAMES[d]]))
  {
    hide SortBy, Parses, Disjoint, ValidDay, Parsed;
    assert |WEEKDAY_NAMES| == 7;
    forall name | name in value
      ensures Parses(value[name]) && Disjoint(Parsed(value[name]))
    {
      assert name in value.Keys;
      var k :| 0 <= k < 7 && WEEKDAY_NAMES[k] == name;
    }
    assert forall k :: 0 <= k < |days| ==> WEEKDAY_NAMES[k] in value && DayOf(value[WEEKDAY_NAMES[k]], days[k]);
  }

  function FormatInterval(w: WorkingInterval): seq<string>
    requires w.Proper()
  {
    [FormatTime(w.start), FormatTime(w.end)]
  }

  /** One day of `to_mapping`. */
  function FormatDay(day: seq<WorkingInterval>): seq<seq<string>>
    requires forall i :: 0 <= i < |day| ==> day[i].Proper()
  {
    seq(|day|, i requires 0 <= i < |day| => FormatInterval(day[i]))
  }

  /** Storing a day with `to_mapping` and parsing it again changes nothing. */
  lemma ParseOfFormattedDay(day: seq<WorkingInterval>)
    requires ValidDay(day)
    ensures var raws := FormatDay(day);
      Parses(raws) && Parsed(raws) == day && Disjoint(Parsed(raws)) && SortBy(Before, Parsed(raws)) == day
  {
    var raws := FormatDay(day);
    forall i | 0 <= i < |raws|
      ensures ParseInterval(raws[i]) == Some(day[i])
    {
      ParseOfFormat(day[i].start);
      ParseOfFormat(day[i].end);
    }
    assert Parsed(raws) == day;
    assert SortedBy(Before, day);
    SortOfSorted(Before, day);
  }

  lemma NamesDiffer()
    ensures |WEEKDAY_NAMES| == 7
    ensures forall i, j :: 0 <= i < j < 7 ==> WEEKDAY_NAMES[i] != WEEKDAY_NAMES[j]
  {
    assert "monday"[0] == 'm' && "friday"[0] == 'f' && "sunday"[0] == 's';
    assert |"tuesday"| == 7 && |"wednesday"| == 9 && |"thursday"| == |"saturday"| == 8;
    assert "thursday"[0] == 't' && "saturday"[0] == 's';
  }

  /** `to_mapping`. */
  function ToMapping(h: WorkingHours): Mapping
    requires |h.days| == 7 && forall d, i :: 0 <= d < 7 && 0 <= i < |h.days[d]| ==> h.days[d][i].Proper()
  {
    NamesDiffer();
    map d | 0 <= d < 7 :: WEEKDAY_NAMES[d] := FormatDay(h.days[d])
  }

  lemma StoredDays(h: WorkingHours)
    requires h.Valid()
    ensures ToMapping(h).Keys == set name | name in WEEKDAY_NAMES
    ensures forall d :: 0 <= d < 7 ==>
      WEEKDAY_NAMES[d] in ToMapping(h) && ToMapping(h)[WEEKDAY_NAMES[d]] == FormatDay(h.days[d])
  {
    hide FormatDay;
    NamesDiffer();
  }

  lemma StoredDayComesBack(h: WorkingHours, d: nat)
    requires h.Valid() && d < 7
    ensures WEEKDAY_NAMES[d] in ToMapping(h) && DayOf(ToMapping(h)[WEEKDAY_NAMES[d]], h.days[d])
  {
    StoredDays(h);
    ParseOfFormattedDay(h.days[d]);
    hide FormatDay, SortBy, ToMapping, ValidDay, Parses, Disjoint, Parsed;
  }

  /** Working hours stored and parsed again are accepted and come back as they were. */
  lemma StoredHoursComeBack(h: WorkingHours)
    requires h.Valid()
    ensures Acceptable(ToMapping(h))
    ensures forall d :: 0 <= d < 7 ==> SortBy(Before, Parsed(ToMapping(h)[WEEKDAY_NAMES[d]])) == h.days[d]
  {
    StoredDays(h);
    forall d | 0 <= d < 7
      ensures WEEKDAY_NAMES[d] in ToMapping(h) && DayOf(ToMapping(h)[WEEKDAY_NAMES[d]], h.days[d])
    {
      StoredDayComesBack(h, d);
    }
    hide ToMapping, DayOf, Acceptable;
    WeekIsAcceptable(ToMapping(h), h.days);
  }
}
