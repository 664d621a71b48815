/**
  The main screen's view-model as pure state transitions over `UiState`: the call filter,
  the user's filter actions, loading a batch of cursor rows, the time-window counts and the
  summary statistics.

  The clock is not modelled. Every time boundary the app reads from `java.util.Calendar`
  arrives as a field of `Anchors`, fixed for one call, and the hour a call falls in is a
  function `hourOf` from timestamps to hour keys.
 */
module MainScreenViewModel {
  import opened Optional
  import opened Collections
  import opened Decimal
  import opened CallLog
  import opened MainScreenState

  /* ---------------------------------------------------------------- */
  /* The call filter                                                    */
  /* ---------------------------------------------------------------- */

  /** The only numbers whose calls are ever counted. */
  const ALLOWED_NUMBERS: seq<string> := ["1230", "0533131310"]

  /** `isValidCall`: the call's direction is selected, it lasts at least the threshold when
      the threshold is positive, and it is with an allowed number. */
  function IsValidCall(s: UiState, c: CallLogEntry): (ok: bool)
    ensures ok <==>
      && c.callType in s.selectedCallTypes
      && (s.fromDuration <= 0 || c.duration >= s.fromDuration)
      && (c.number == "1230" || c.number == "0533131310")
  {
    var fromDuration: Option<int> := if s.fromDuration > 0 then Some(s.fromDuration as int) else None;
    && c.callType in s.selectedCallTypes
    && (match fromDuration
        case Some(d) => c.duration >= d
        case None => true)
    && c.number in ALLOWED_NUMBERS
  }

  /** `isValidCall` for a fixed state, as a predicate on calls. */
  function Validity(s: UiState): CallLogEntry -> bool
  {
    (c: CallLogEntry) => IsValidCall(s, c)
  }

  /** The state invariant: `filteredCalls` is exactly the valid subsequence of `calls`. */
  ghost predicate Consistent(s: UiState)
  {
    s.filteredCalls == Filter(s.calls, Validity(s))
  }

  /** Two states with the same effective criteria accept the same calls. */
  lemma SameCriteriaSameFilter(s: UiState, t: UiState, xs: seq<CallLogEntry>)
    requires s.fromDuration == t.fromDuration || (s.fromDuration <= 0 && t.fromDuration <= 0)
    requires forall u: CallType :: u in s.selectedCallTypes <==> u in t.selectedCallTypes
    ensures Filter(xs, Validity(s)) == Filter(xs, Validity(t))
  {
    FilterCongruent(xs, Validity(s), Validity(t));
  }

  /** `filterCalls`: replaces `filteredCalls` by the valid calls of `calls`, every occurrence
      in its original order, and touches nothing else. */
  function FilterCalls(s: UiState): (r: UiState)
    ensures r.calls == s.calls && r.fromDuration == s.fromDuration
    ensures r.selectedCallTypes == s.selectedCallTypes
    ensures r.statistics == s.statistics && r.data == s.data
    ensures forall i :: 0 <= i < |r.filteredCalls| ==> IsValidCall(s, r.filteredCalls[i])
    ensures forall c :: c in r.filteredCalls <==> c in s.calls && IsValidCall(s, c)
    ensures Consistent(r)
  {
    var r := s.(filteredCalls := Filter(s.calls, Validity(s)));
    SameCriteriaSameFilter(s, r, s.calls);
    r
  }

  /** The filtered calls keep the order of the calls and every occurrence of a valid call. */
  lemma FilterCallsKeepsOccurrences(s: UiState)
    ensures var r := FilterCalls(s).filteredCalls;
            && multiset(r) <= multiset(s.calls)
            && (forall c | c in s.calls && IsValidCall(s, c) :: multiset(r)[c] == multiset(s.calls)[c])
            && IsSubsequence(r, s.calls)
  {
    FilterKeepsOccurrences(s.calls, Validity(s));
  }

  /** Filtering the filtered calls again changes nothing. */
  lemma FilterCallsIdempotent(s: UiState)
    ensures Filter(FilterCalls(s).filteredCalls, Validity(FilterCalls(s))) == FilterCalls(s).filteredCalls
    ensures FilterCalls(FilterCalls(s)) == FilterCalls(s)
  {
    var r := FilterCalls(s);
    SameCriteriaSameFilter(s, r, s.calls);
    FilterIdempotent(s.calls, Validity(s));
    SameCriteriaSameFilter(s, r, r.filteredCalls);
  }

  /** A call with a number outside the allowlist is never kept, whatever the criteria. */
  lemma UnlistedNumberNeverKept(s: UiState, c: CallLogEntry)
    requires c.number !in ALLOWED_NUMBERS
    ensures c !in FilterCalls(s).filteredCalls
  {
  }

  /* ---------------------------------------------------------------- */
  /* Filter actions                                                     */
  /* ---------------------------------------------------------------- */

  /** `onDurationChange`: stores the new threshold and re-filters; the calls and the
      summaries are left as they were. */
  function OnDurationChange(s: UiState, duration: Int32): (r: UiState)
    ensures r.fromDuration == duration
    ensures r.calls == s.calls && r.selectedCallTypes == s.selectedCallTypes
    ensures r.statistics == s.statistics && r.data == s.data
    ensures Consistent(r)
  {
    FilterCalls(s.(fromDuration := duration))
  }

  /** The threshold is inclusive: a call lasting exactly the threshold passes it. */
  lemma ThresholdIsInclusive(s: UiState, c: CallLogEntry)
    requires c.callType in s.selectedCallTypes && c.number in ALLOWED_NUMBERS
    requires c.duration == s.fromDuration
    ensures IsValidCall(s, c)
  {
  }

  /** Every threshold at or below zero disables the duration check. */
  lemma NonPositiveThresholdDisabled(s: UiState, duration: Int32)
    requires duration <= 0
    ensures OnDurationChange(s, duration).filteredCalls == OnDurationChange(s, 0).filteredCalls
  {
    SameCriteriaSameFilter(s.(fromDuration := duration), s.(fromDuration := 0), s.calls);
  }

  /** Raising the threshold keeps a sub-selection of the calls kept before, so never more. */
  lemma RaisingThresholdKeepsFewer(s: UiState, low: Int32, high: Int32)
    requires low <= high
    ensures var before := OnDurationChange(s, low).filteredCalls;
            var after := OnDurationChange(s, high).filteredCalls;
            Filter(before, Validity(s.(fromDuration := high))) == after && |after| <= |before|
  {
    FilterStronger(s.calls, Validity(s.(fromDuration := low)), Validity(s.(fromDuration := high)));
  }

  /** Adds `t` when absent (at the end, like `List.plus`), removes it when present
      (its first occurrence, like `List.minus`). */
  function Toggle(selected: seq<CallType>, t: CallType): (r: seq<CallType>)
    ensures t !in selected ==> t in r
    ensures t in selected && NoDuplicates(selected) ==> t !in r
    ensures forall u :: u != t ==> (u in r <==> u in selected)
    ensures NoDuplicates(selected) ==> NoDuplicates(r)
  {
    if t !in selected then selected + [t]
    else
      var r := Minus(selected, t);
      forall u | u != t
        ensures u in r <==> u in selected
      {
        assert multiset(r)[u] == multiset(selected)[u];
        assert u in r <==> multiset(r)[u] > 0;
        assert u in selected <==> multiset(selected)[u] > 0;
      }
      if NoDuplicates(selected) then MinusNoDuplicates(selected, t); r else r
  }

  /** `onCallTypeCheckedChange`: flips whether `callType` is selected, leaves the other
      directions as they were, and re-filters. */
  function OnCallTypeCheckedChange(s: UiState, callType: CallType): (r: UiState)
    ensures callType !in s.selectedCallTypes ==> callType in r.selectedCallTypes
    ensures callType in s.selectedCallTypes && NoDuplicates(s.selectedCallTypes) ==> callType !in r.selectedCallTypes
    ensures forall u :: u != callType ==> (u in r.selectedCallTypes <==> u in s.selectedCallTypes)
    ensures NoDuplicates(s.selectedCallTypes) ==> NoDuplicates(r.selectedCallTypes)
    ensures r.calls == s.calls && r.fromDuration == s.fromDuration
    ensures r.statistics == s.statistics && r.data == s.data
    ensures Consistent(r)
  {
    FilterCalls(s.(selectedCallTypes := Toggle(s.selectedCallTypes, callType)))
  }

  /** Toggling the same direction twice restores the same selection, as a set, and so the
      same filtered calls. */
  lemma {:induction false} ToggleTwiceRestores(s: UiState, callType: CallType)
    requires NoDuplicates(s.selectedCallTypes) && Consistent(s)
    ensures var r := OnCallTypeCheckedChange(OnCallTypeCheckedChange(s, callType), callType);
            && (forall u :: u in r.selectedCallTypes <==> u in s.selectedCallTypes)
            && r.filteredCalls == s.filteredCalls
  {
    var r := OnCallTypeCheckedChange(OnCallTypeCheckedChange(s, callType), callType);
    assert forall u :: u in r.selectedCallTypes <==> u in s.selectedCallTypes;
    SameCriteriaSameFilter(r, s, s.calls);
  }

  /** Well-formed states: the filter invariant holds and no direction is selected twice. */
  ghost predicate WellFormed(s: UiState)
  {
    Consistent(s) && NoDuplicates(s.selectedCallTypes)
  }

  /** Both filter actions preserve well-formedness. */
  lemma ActionsPreserveWellFormed(s: UiState, duration: Int32, callType: CallType)
    requires WellFormed(s)
    ensures WellFormed(OnDurationChange(s, duration))
    ensures WellFormed(OnCallTypeCheckedChange(s, callType))
  {
  }

  /* ---------------------------------------------------------------- */
  /* Loading a batch of call-log rows                                   */
  /* ---------------------------------------------------------------- */

  /** The loop of `getCallsLog`: every cursor row, in cursor order, is appended to `calls` as
      an entry; a null cursor (`None`) appends nothing; the calls are then re-filtered. */
  method GetCallsLog(s: UiState, cursor: Option<seq<Row>>) returns (r: UiState)
    ensures cursor.None? ==> r.calls == s.calls
    ensures cursor.Some? ==> |r.calls| == |s.calls| + |cursor.value|
    ensures cursor.Some? ==> r.calls[..|s.calls|] == s.calls
    ensures cursor.Some? ==> forall i :: 0 <= i < |cursor.value| ==> r.calls[|s.calls| + i] == EntryOf(cursor.value[i])
    ensures r.fromDuration == s.fromDuration && r.selectedCallTypes == s.selectedCallTypes
    ensures r.statistics == s.statistics && r.data == s.data
    ensures Consistent(r)
  {
    r := s;
    if cursor.Some? {
      var rows := cursor.value;
      var i := 0;
      while i < |rows|
        invariant 0 <= i <= |rows|
        invariant |r.calls| == |s.calls| + i
        invariant r.calls[..|s.calls|] == s.calls
        invariant forall k :: 0 <= k < i ==> r.calls[|s.calls| + k] == EntryOf(rows[k])
        invariant r.fromDuration == s.fromDuration && r.selectedCallTypes == s.selectedCallTypes
        invariant r.statistics == s.statistics && r.data == s.data
      {
        r := r.(calls := r.calls + [EntryOf(rows[i])]);
        i := i + 1;
      }
    }
    r := FilterCalls(r);
  }

  /* ---------------------------------------------------------------- */
  /* Time windows                                                       */
  /* ---------------------------------------------------------------- */

  /** The time boundaries of one refresh, in epoch milliseconds: start of the current hour,
      one hour ago, start of the day, one day ago, start of the week (the last Friday), one
      week ago, start of the month and one month ago. */
  datatype Anchors = Anchors(
    startOfHour: int, hoursAgo: int,
    startOfDay: int, daysAgo: int,
    startOfWeek: int, weeksAgo: int,
    startOfMonth: int, monthsAgo: int)
  {
    /** The boundary a stat tile counts from. */
    function At(window: Label): int
    {
      match window
      case StartOfHour => startOfHour
      case LastHour => hoursAgo
      case StartOfDay => startOfDay
      case LastDay => daysAgo
      case StartOfWeek => startOfWeek
      case LastWeek => weeksAgo
      case StartOfMonth => startOfMonth
      case LastMonth => monthsAgo
    }
  }

  /** How boundaries of one clock reading relate: each "N ago" is no later than the shorter
      one before it, and the start of the week is no later than the start of the day. The
      "start of" boundaries are not assumed to be ordered otherwise: the app truncates them
      to different fields. */
  ghost predicate RecencyOrdered(a: Anchors)
  {
    && a.hoursAgo >= a.daysAgo >= a.weeksAgo >= a.monthsAgo
    && a.startOfDay >= a.startOfWeek
  }

  /** `filterByDate`: the filtered calls that started at or after `date`, in order. */
  function FilterByDate(filteredCalls: seq<CallLogEntry>, date: int): (r: seq<CallLogEntry>)
    ensures forall i :: 0 <= i < |r| ==> r[i].date >= date
    ensures forall c :: c in r <==> c in filteredCalls && c.date >= date
    ensures |r| <= |filteredCalls|
  {
    Filter(filteredCalls, AtOrAfter(date))
  }

  /** The calls since `date` keep their order and every occurrence. */
  lemma FilterByDateKeepsOccurrences(filteredCalls: seq<CallLogEntry>, date: int)
    ensures var r := FilterByDate(filteredCalls, date);
            && (forall c | c in filteredCalls && c.date >= date :: multiset(r)[c] == multiset(filteredCalls)[c])
            && IsSubsequence(r, filteredCalls)
  {
    FilterKeepsOccurrences(filteredCalls, AtOrAfter(date));
  }

  /** A later boundary selects a sub-selection of an earlier one, so never more calls. */
  lemma FilterByDateAntitone(filteredCalls: seq<CallLogEntry>, earlier: int, later: int)
    requires earlier <= later
    ensures Filter(FilterByDate(filteredCalls, earlier), AtOrAfter(later)) == FilterByDate(filteredCalls, later)
    ensures |FilterByDate(filteredCalls, later)| <= |FilterByDate(filteredCalls, earlier)|
  {
    FilterStronger(filteredCalls, AtOrAfter(earlier), AtOrAfter(later));
  }

  /** One stat tile: the window, its boundary, and the number of filtered calls since then. */
  function Tile(filteredCalls: seq<CallLogEntry>, anchors: Anchors, window: Label): (d: DataItem)
    ensures d.window == window && d.fromMillis == anchors.At(window)
    ensures d.count == |FilterByDate(filteredCalls, anchors.At(window))|
    ensures 0 <= d.count <= |filteredCalls|
  {
    DataItem(
      count := |FilterByDate(filteredCalls, anchors.At(window))|,
      window := window,
      fromMillis := anchors.At(window))
  }

  /** The tile of a window, for fixed filtered calls and boundaries. */
  function TileOf(filteredCalls: seq<CallLogEntry>, anchors: Anchors): Label -> DataItem
  {
    (window: Label) => Tile(filteredCalls, anchors, window)
  }

  /** `getData`: one tile per window, in the fixed order of `LABELS`. */
  function GetData(filteredCalls: seq<CallLogEntry>, anchors: Anchors): (r: seq<DataItem>)
    ensures |r| == |LABELS| == 8
    ensures forall i :: 0 <= i < |r| ==> r[i] == Tile(filteredCalls, anchors, LABELS[i])
  {
    Map(LABELS, TileOf(filteredCalls, anchors))
  }

  /** The count of the tile at position `i` of `getData`. */
  lemma DataCount(filteredCalls: seq<CallLogEntry>, anchors: Anchors, i: nat)
    requires i < 8
    ensures GetData(filteredCalls, anchors)[i].count == |FilterByDate(filteredCalls, anchors.At(LABELS[i]))|
  {
    assert GetData(filteredCalls, anchors)[i] == Tile(filteredCalls, anchors, LABELS[i]);
  }

  /** With boundaries of one clock reading, the "last hour / day / week / month" counts never
      decrease as the window widens, and the day count never exceeds the week count. */
  lemma DataCountsFollowRecency(filteredCalls: seq<CallLogEntry>, anchors: Anchors)
    requires RecencyOrdered(anchors)
    ensures var d := GetData(filteredCalls, anchors);
            && d[1].count <= d[3].count <= d[5].count <= d[7].count
            && d[2].count <= d[4].count
  {
    assert anchors.At(LABELS[1]) == anchors.hoursAgo;
    assert anchors.At(LABELS[2]) == anchors.startOfDay;
    assert anchors.At(LABELS[3]) == anchors.daysAgo;
    assert anchors.At(LABELS[4]) == anchors.startOfWeek;
    assert anchors.At(LABELS[5]) == anchors.weeksAgo;
    assert anchors.At(LABELS[7]) == anchors.monthsAgo;
    DataCount(filteredCalls, anchors, 1);
    DataCount(filteredCalls, anchors, 2);
    DataCount(filteredCalls, anchors, 3);
    DataCount(filteredCalls, anchors, 4);
    DataCount(filteredCalls, anchors, 5);
    DataCount(filteredCalls, anchors, 7);
    WindowCountsOrdered(filteredCalls, anchors.hoursAgo, anchors.daysAgo, anchors.weeksAgo, anchors.monthsAgo);
    FewerSinceLater(filteredCalls, anchors.startOfWeek, anchors.startOfDay);
  }

  lemma WindowCountsOrdered(filteredCalls: seq<CallLogEntry>, hour: int, day: int, week: int, month: int)
    requires hour >= day >= week >= month
    ensures |FilterByDate(filteredCalls, hour)| <= |FilterByDate(filteredCalls, day)|
            <= |FilterByDate(filteredCalls, week)| <= |FilterByDate(filteredCalls, month)|
  {
    FewerSinceLater(filteredCalls, day, hour);
    FewerSinceLater(filteredCalls, week, day);
    FewerSinceLater(filteredCalls, month, week);
  }

  lemma FewerSinceLater(filteredCalls: seq<CallLogEntry>, earlier: int, later: int)
    requires earlier <= later
    ensures |FilterByDate(filteredCalls, later)| <= |FilterByDate(filteredCalls, earlier)|
  {
    FilterByDateAntitone(filteredCalls, earlier, later);
  }

  /* ---------------------------------------------------------------- */
  /* Statistics                                                         */
  /* ---------------------------------------------------------------- */

  /** `c` is what `maxByOrNull { duration }` returns: one of the calls, at least as long as
      every other, and strictly longer than every call before its first occurrence. */
  ghost predicate IsLongestCall(xs: seq<CallLogEntry>, c: CallLogEntry)
  {
    && c in xs
    && (forall i :: 0 <= i < |xs| ==> xs[i].duration <= c.duration)
    && (forall i :: 0 <= i < FirstIndex(xs, c) ==> xs[i].duration < c.duration)
  }

  function LongestCall(xs: seq<CallLogEntry>): (c: CallLogEntry)
    requires |xs| > 0
    ensures IsLongestCall(xs, c)
  {
    xs[FirstMaxIndex(xs, Duration)]
  }

  /** The hour key of a call's start. */
  function HourKey(hourOf: int -> int): CallLogEntry -> int
  {
    (c: CallLogEntry) => hourOf(c.date)
  }

  /** `h` is the busiest hour: some call falls in it, no hour holds more calls, and every hour
      met earlier in the list holds strictly fewer (the first maximum wins). */
  ghost predicate IsBusiestHour(xs: seq<CallLogEntry>, hourOf: int -> int, h: int)
  {
    IsFirstLargestKey(xs, HourKey(hourOf), h)
  }

  /** The key of the largest group of `groupBy { hour }`, the first on ties. */
  function BusiestHour(xs: seq<CallLogEntry>, hourOf: int -> int): (h: int)
    requires |xs| > 0
    ensures IsBusiestHour(xs, hourOf, h)
  {
    var gs := GroupBy(xs, HourKey(hourOf));
    LargestGroupIsFirstLargestKey(xs, HourKey(hourOf));
    gs[FirstMaxIndex(gs, GroupSize)].key
  }

  /** The total length of the calls that started at or after `anchor`. */
  function TotalDurationSince(xs: seq<CallLogEntry>, anchor: int): int
  {
    SumBy(FilterByDate(xs, anchor), Duration)
  }

  /** Over calls of non-negative length, an earlier boundary never gives a smaller total, and
      no total exceeds the length of all calls together. */
  lemma TotalDurationAntitone(xs: seq<CallLogEntry>, earlier: int, later: int)
    requires forall i :: 0 <= i < |xs| ==> xs[i].duration >= 0
    requires earlier <= later
    ensures 0 <= TotalDurationSince(xs, later) <= TotalDurationSince(xs, earlier) <= SumBy(xs, Duration)
  {
    SumByFilterStronger(xs, Duration, AtOrAfter(earlier), AtOrAfter(later));
    SumByFilterStronger(xs, Duration, AtOrAfter(later), (c: CallLogEntry) => false);
    FilterNone(xs, (c: CallLogEntry) => false);
    SumByFilterStronger(xs, Duration, (c: CallLogEntry) => true, AtOrAfter(earlier));
    FilterAll(xs, (c: CallLogEntry) => true);
  }

  /** `getStatistics`: nothing for no filtered calls; otherwise the longest call, the busiest
      hour and the total length since the start of the hour, day, week and month. */
  function GetStatistics(filteredCalls: seq<CallLogEntry>, anchors: Anchors, hourOf: int -> int): (r: Option<Statistics>)
    ensures r.None? <==> |filteredCalls| == 0
    ensures r.Some? ==> IsLongestCall(filteredCalls, r.value.longestCall)
    ensures r.Some? ==> IsBusiestHour(filteredCalls, hourOf, r.value.mostBusiestHour)
    ensures r.Some? ==>
      && r.value.totalDurationStartOfHour == TotalDurationSince(filteredCalls, anchors.startOfHour)
      && r.value.totalDurationStartOfDay == TotalDurationSince(filteredCalls, anchors.startOfDay)
      && r.value.totalDurationStartOfWeek == TotalDurationSince(filteredCalls, anchors.startOfWeek)
      && r.value.totalDurationStartOfMonth == TotalDurationSince(filteredCalls, anchors.startOfMonth)
  {
    var xs := filteredCalls;
    if |xs| == 0 then None
    else
      Some(Statistics(
        longestCall := LongestCall(xs),
        mostBusiestHour := BusiestHour(xs, hourOf),
        totalDurationStartOfHour := TotalDurationSince(xs, anchors.startOfHour),
        totalDurationStartOfDay := TotalDurationSince(xs, anchors.startOfDay),
        totalDurationStartOfWeek := TotalDurationSince(xs, anchors.startOfWeek),
        totalDurationStartOfMonth := TotalDurationSince(xs, anchors.startOfMonth)))
  }

  /** The total of one call: its length if it started at or after the boundary, else 0. */
  lemma TotalDurationOfOne(c: CallLogEntry, anchor: int)
    ensures TotalDurationSince([c], anchor) == if c.date >= anchor then c.duration else 0
  {
    assert [c][1..] == [];
    var kept := Filter([c], AtOrAfter(anchor));
    assert kept == if c.date >= anchor then [c] else [];
    if c.date >= anchor {
      assert SumBy(kept, Duration) == c.duration + SumBy(kept[1..], Duration);
    }
  }

  /** The only call's hour is the busiest. */
  lemma BusiestHourOfOne(c: CallLogEntry, hourOf: int -> int)
    ensures BusiestHour([c], hourOf) == hourOf(c.date)
  {
    assert [c][..0] == [];
    assert GroupBy([c], HourKey(hourOf)) == [Group(hourOf(c.date), [c])];
  }

  /** For one filtered call, the summary is that call, its hour, and its length in every
      window it started in. */
  lemma StatisticsOfOneCall(c: CallLogEntry, anchors: Anchors, hourOf: int -> int)
    ensures GetStatistics([c], anchors, hourOf) == Some(Statistics(
              c, hourOf(c.date),
              if c.date >= anchors.startOfHour then c.duration else 0,
              if c.date >= anchors.startOfDay then c.duration else 0,
              if c.date >= anchors.startOfWeek then c.duration else 0,
              if c.date >= anchors.startOfMonth then c.duration else 0))
  {
    BusiestHourOfOne(c, hourOf);
    TotalDurationOfOne(c, anchors.startOfHour);
    TotalDurationOfOne(c, anchors.startOfDay);
    TotalDurationOfOne(c, anchors.startOfWeek);
    TotalDurationOfOne(c, anchors.startOfMonth);
  }

  /* ---------------------------------------------------------------- */
  /* Start of the week                                                  */
  /* ---------------------------------------------------------------- */

  /** `Calendar.DAY_OF_WEEK` values. */
  const SUNDAY: int := 1
  const FRIDAY: int := 6
  const SATURDAY: int := 7

  predicate IsDayOfWeek(d: int) {
    SUNDAY <= d <= SATURDAY
  }

  /** The day of the week `n` days before `d`, one day at a time. */
  function DaysBefore(d: int, n: nat): (r: int)
    requires IsDayOfWeek(d)
    ensures IsDayOfWeek(r)
    decreases n
  {
    if n == 0 then d
    else DaysBefore(if d == SUNDAY then SATURDAY else d - 1, n - 1)
  }

  /** The day offset of `getFromStartOfTheWeek`: how many days back the last Friday is
      (zero on a Friday). */
  function DaysToSubtract(dayOfWeek: int): (r: int)
    requires IsDayOfWeek(dayOfWeek)
    ensures 0 <= r <= 6
    ensures r == 0 <==> dayOfWeek == FRIDAY
  {
    // The operand is at least 2, so Kotlin's truncating % agrees with Dafny's.
    (dayOfWeek - FRIDAY + 7) % 7
  }

  lemma ShiftByWeek(a: int)
    ensures (a + 7) % 7 == a % 7
  {
  }

  /** Stepping back `n` days is subtracting `n` modulo the week. */
  lemma {:induction false} DaysBeforeModulo(d: int, n: nat)
    requires IsDayOfWeek(d)
    ensures DaysBefore(d, n) == (d - 1 - n) % 7 + 1
    decreases n
  {
    if n > 0 {
      var previous := if d == SUNDAY then SATURDAY else d - 1;
      DaysBeforeModulo(previous, n - 1);
      assert previous - 1 - (n - 1) == (d - 1 - n) + (if d == SUNDAY then 7 else 0);
      ShiftByWeek(d - 1 - n);
    }
  }

  /** Going back `DaysToSubtract` days lands on a Friday, and no smaller step does. */
  lemma DaysToSubtractFindsLastFriday(dayOfWeek: int)
    requires IsDayOfWeek(dayOfWeek)
    ensures DaysBefore(dayOfWeek, DaysToSubtract(dayOfWeek)) == FRIDAY
    ensures forall k: nat :: k < DaysToSubtract(dayOfWeek) ==> DaysBefore(dayOfWeek, k) != FRIDAY
  {
    DaysBeforeModulo(dayOfWeek, DaysToSubtract(dayOfWeek));
    forall k: nat | k < DaysToSubtract(dayOfWeek)
      ensures DaysBefore(dayOfWeek, k) != FRIDAY
    {
      DaysBeforeModulo(dayOfWeek, k);
    }
  }

  /* ---------------------------------------------------------------- */
  /* One refresh                                                        */
  /* ---------------------------------------------------------------- */

  /** `init`, run as one sequential step: take the stored threshold (0 when none was ever
      stored), empty the calls, load the cursor rows, re-filter, then recompute the summaries. */
  method Init(s: UiState, stored: Option<Int32>, cursor: Option<seq<Row>>, anchors: Anchors, hourOf: int -> int)
    returns (r: UiState)
    ensures r.fromDuration == stored.OrElse(0)
    ensures r.selectedCallTypes == s.selectedCallTypes
    ensures cursor.None? ==> r.calls == []
    ensures cursor.Some? ==> r.calls == Map(cursor.value, EntryOf)
    ensures Consistent(r)
    ensures r.statistics == GetStatistics(r.filteredCalls, anchors, hourOf)
    ensures r.data == GetData(r.filteredCalls, anchors)
  {
    var t := s.(fromDuration := stored.OrElse(0));
    t := LoadFresh(t, cursor);
    r := Summarize(t, anchors, hourOf);
  }

  /** The stored-threshold collector of `init`: it copies the stored value into the state
      and, unlike `onDurationChange`, does not re-filter. */
  function ApplyStoredThreshold(s: UiState, v: Int32): (r: UiState)
    ensures r.fromDuration == v
    ensures r.calls == s.calls && r.filteredCalls == s.filteredCalls
    ensures r.selectedCallTypes == s.selectedCallTypes
    ensures r.statistics == s.statistics && r.data == s.data
  {
    s.(fromDuration := v)
  }

  /** The collector keeps the filter invariant when the effective threshold does not change. */
  lemma StoredThresholdKeepsFilter(s: UiState, v: Int32)
    requires Consistent(s)
    requires v == s.fromDuration || (v <= 0 && s.fromDuration <= 0)
    ensures Consistent(ApplyStoredThreshold(s, v))
  {
    SameCriteriaSameFilter(ApplyStoredThreshold(s, v), s, s.calls);
  }

  /** When the stored value arrives after the calls are loaded and it changes the effective
      threshold, the filtered calls no longer match the criteria: a five-second allowed
      incoming call stays listed under a ten-second threshold. */
  lemma LateStoredThresholdBreaksFilter()
    ensures var c := CallLogEntry(0, "1230", 5, Incoming);
            var s := Initial().(calls := [c], filteredCalls := [c]);
            Consistent(s) && !Consistent(ApplyStoredThreshold(s, 10))
  {
    var c := CallLogEntry(0, "1230", 5, Incoming);
    var s := Initial().(calls := [c], filteredCalls := [c]);
    assert IsValidCall(s, c);
    assert Filter([c], Validity(s)) == [c] + Filter([c][1..], Validity(s));
    var t := ApplyStoredThreshold(s, 10);
    assert !IsValidCall(t, c);
    assert Filter([c], Validity(t)) == Filter([c][1..], Validity(t));
  }

  /** The loading step of `init`: the calls are emptied, then the cursor rows are loaded and
      filtered; the criteria are kept. */
  method LoadFresh(s: UiState, cursor: Option<seq<Row>>) returns (r: UiState)
    ensures cursor.None? ==> r.calls == []
    ensures cursor.Some? ==> r.calls == Map(cursor.value, EntryOf)
    ensures r.fromDuration == s.fromDuration && r.selectedCallTypes == s.selectedCallTypes
    ensures Consistent(r)
  {
    var empty := s.(calls := [], filteredCalls := []);
    assert |empty.calls| == 0;
    r := GetCallsLog(empty, cursor);
    if cursor.Some? {
      LoadedIntoEmpty(r.calls, cursor.value);
    }
  }

  /** The last step of `init`: the statistics and tiles of the filtered calls replace the old
      ones; the calls, the criteria and the filter invariant are kept. */
  function Summarize(t: UiState, anchors: Anchors, hourOf: int -> int): (r: UiState)
    requires Consistent(t)
    ensures r.calls == t.calls && r.filteredCalls == t.filteredCalls
    ensures r.fromDuration == t.fromDuration && r.selectedCallTypes == t.selectedCallTypes
    ensures r.statistics == GetStatistics(t.filteredCalls, anchors, hourOf)
    ensures r.data == GetData(t.filteredCalls, anchors)
    ensures Consistent(r)
  {
    var r := t.(statistics := GetStatistics(t.filteredCalls, anchors, hourOf), data := GetData(t.filteredCalls, anchors));
    SameCriteriaSameFilter(t, r, t.calls);
    r
  }

  /** Rows loaded after no calls are the rows' entries, in cursor order. */
  lemma LoadedIntoEmpty(calls: seq<CallLogEntry>, rows: seq<Row>)
    requires |calls| == |rows|
    requires forall i :: 0 <= i < |rows| ==> calls[i] == EntryOf(rows[i])
    ensures calls == Map(rows, EntryOf)
  {
  }

  /* ---------------------------------------------------------------- */
  /* The initial state                                                  */
  /* ---------------------------------------------------------------- */

  /** The initial state is well formed; only incoming calls pass its filter, whatever their
      length; and its empty summary is what `getStatistics` gives for no calls. */
  lemma InitialState(anchors: Anchors, hourOf: int -> int)
    ensures WellFormed(Initial())
    ensures forall c: CallLogEntry :: c.callType != Incoming ==> !IsValidCall(Initial(), c)
    ensures forall c: CallLogEntry :: c.callType == Incoming && c.number in ALLOWED_NUMBERS ==> IsValidCall(Initial(), c)
    ensures Initial().statistics == GetStatistics(Initial().filteredCalls, anchors, hourOf)
  {
  }
}
