/**
  The pure helpers of the main screen: the two duration formatters, the stat tiles of the
  stats tab, the calls-per-day chart series, the day grouping of the calls tab and the
  threshold text field of the filters tab.
 */
module MainScreen {
  import opened Optional
  import opened Collections
  import opened Decimal
  import opened CallLog
  import opened MainScreenState
  import opened MainScreenViewModel

  /* ---------------------------------------------------------------- */
  /* Durations                                                        */
  /* ---------------------------------------------------------------- */

  /** Kotlin's `/` on `Long`: the quotient truncated toward zero. */
  function TruncDiv(a: int, b: int): int
    requires b > 0
  {
    if a >= 0 then a / b else -((-a) / b)
  }

  /** Kotlin's `%` on `Long`: the remainder takes the sign of the dividend. */
  function TruncRem(a: int, b: int): int
    requires b > 0
  {
    a - b * TruncDiv(a, b)
  }

  datatype Split = Split(hours: int, minutes: int, seconds: int)

  /** The hours, minutes and seconds both formatters compute from a number of seconds. */
  function SplitDuration(s: int): (p: Split)
    ensures p.hours * 3600 + p.minutes * 60 + p.seconds == s
    ensures s >= 0 ==> p.hours >= 0 && 0 <= p.minutes < 60 && 0 <= p.seconds < 60
    ensures s <= 0 ==> p.hours <= 0 && -60 < p.minutes <= 0 && -60 < p.seconds <= 0
    decreases if s < 0 then 1 else 0
  {
    if s >= 0 then
      Split(s / 3600, (s % 3600) / 60, s % 60)
    else
      var q := SplitDuration(-s);
      Split(-q.hours, -q.minutes, -q.seconds)
  }

  /** The split agrees with Kotlin's truncating `/` and `%` on `Long`. */
  lemma SplitDurationTruncates(s: int)
    ensures SplitDuration(s) == Split(TruncDiv(s, 3600), TruncDiv(TruncRem(s, 3600), 60), TruncRem(s, 60))
  {
    if s < 0 {
      assert TruncRem(s, 3600) == -((-s) % 3600);
      assert TruncRem(s, 60) == -((-s) % 60);
    }
  }

  /** `toDurationString`: `%02d:%02d:%02d` of hours, minutes and seconds. */
  function ToDurationString(s: int): (t: string)
    ensures 0 <= s < 360000 ==> |t| == 8
    ensures s >= 0 ==> |t| >= 8 && t[|t| - 3] == ':' && t[|t| - 6] == ':'
  {
    var p := SplitDuration(s);
    Pad2(p.hours) + ":" + Pad2(p.minutes) + ":" + Pad2(p.seconds)
  }

  /** The three fields of a clock text `H…H:MM:SS`. */
  datatype ClockFields = ClockFields(hours: string, minutes: string, seconds: string)

  /** Splits a text at the two colons three and six characters from its end. */
  function ClockFieldsOf(t: string): Option<ClockFields>
  {
    if |t| < 8 || t[|t| - 6] != ':' || t[|t| - 3] != ':' then None
    else Some(ClockFields(t[..|t| - 6], t[|t| - 5..|t| - 3], t[|t| - 2..]))
  }

  /** Reads `H…H:MM:SS` back as its hours, minutes and seconds. */
  function DecodeDurationString(t: string): Option<Split>
  {
    match ClockFieldsOf(t)
    case None => None
    case Some(f) =>
      if AllDigits(f.hours) && AllDigits(f.minutes) && AllDigits(f.seconds) then
        Some(Split(ParseDigits(f.hours), ParseDigits(f.minutes), ParseDigits(f.seconds)))
      else None
  }

  /** Splitting `a:b:c` gives back `a`, `b` and `c` when `b` and `c` have two characters. */
  lemma ClockFieldsOfJoin(a: string, b: string, c: string)
    requires |a| >= 2 && |b| == 2 && |c| == 2
    ensures ClockFieldsOf(a + ":" + b + ":" + c) == Some(ClockFields(a, b, c))
  {
    var t := a + ":" + b + ":" + c;
    assert t[|t| - 6] == ':' && t[|t| - 3] == ':';
    assert t[..|t| - 6] == a;
    assert t[|t| - 5..|t| - 3] == b;
    assert t[|t| - 2..] == c;
  }

  /** The clock text of a non-negative duration reads back as the duration's hours, minutes
      and seconds. */
  lemma DurationStringRoundTrip(s: int)
    requires s >= 0
    ensures DecodeDurationString(ToDurationString(s)) == Some(SplitDuration(s))
  {
    var p := SplitDuration(s);
    var a, b, c := Pad2(p.hours), Pad2(p.minutes), Pad2(p.seconds);
    ClockFieldsOfJoin(a, b, c);
    assert ToDurationString(s) == a + ":" + b + ":" + c;
    assert ParseDigits(a) == p.hours && ParseDigits(b) == p.minutes && ParseDigits(c) == p.seconds;
  }

  /** From ten hours up the hours field has no leading zero, so together with the length of
      eight below a hundred hours, the clock text is the only one reading back as the split. */
  lemma DurationStringHoursCanonical(s: int)
    requires s >= 36000
    ensures ToDurationString(s)[0] != '0'
  {
    var p := SplitDuration(s);
    Pad2Canonical(p.hours);
    assert ToDurationString(s)[0] == Pad2(p.hours)[0];
  }

  /** The three units `toDurationText` names, each through a plural string resource. */
  datatype TimeUnit = Hours | Minutes | Seconds

  /** `toDurationText`: the positive parts among hours, minutes and seconds, with " " before
      the minutes and " & " before the seconds when something precedes them.
      `plural(unit, n)` stands for the quantity string resource of `unit` for `n`. */
  function ToDurationText(d: int, plural: (TimeUnit, int) -> string): (r: string)
    ensures d <= 0 ==> r == ""
  {
    TextOfSplit(SplitDuration(d), plural)
  }

  /** The string builder of `toDurationText`, on an already split duration. */
  function TextOfSplit(p: Split, plural: (TimeUnit, int) -> string): string
  {
    var withHours := if p.hours > 0 then plural(Hours, p.hours) else "";
    var withMinutes :=
      if p.minutes > 0 then (if |withHours| > 0 then withHours + " " else withHours) + plural(Minutes, p.minutes)
      else withHours;
    if p.seconds > 0 then (if |withMinutes| > 0 then withMinutes + " & " else withMinutes) + plural(Seconds, p.seconds)
    else withMinutes
  }

  /** One shown part of the duration text, with the separator it takes after another part. */
  datatype Part = Part(separator: string, text: string)

  /** The parts with a positive amount, largest unit first. */
  function Parts(d: int, plural: (TimeUnit, int) -> string): (ps: seq<Part>)
    ensures |ps| <= 3
  {
    PartsOfSplit(SplitDuration(d), plural)
  }

  function PartsOfSplit(p: Split, plural: (TimeUnit, int) -> string): (ps: seq<Part>)
    ensures |ps| <= 3
  {
    (if p.hours > 0 then [Part("", plural(Hours, p.hours))] else [])
    + (if p.minutes > 0 then [Part(" ", plural(Minutes, p.minutes))] else [])
    + (if p.seconds > 0 then [Part(" & ", plural(Seconds, p.seconds))] else [])
  }

  /** The texts of the parts, each after the first preceded by its separator. */
  function JoinParts(ps: seq<Part>): string
  {
    if |ps| == 0 then ""
    else if |ps| == 1 then ps[0].text
    else JoinParts(ps[..|ps| - 1]) + ps[|ps| - 1].separator + ps[|ps| - 1].text
  }

  lemma JoinTwo(a: Part, b: Part)
    ensures JoinParts([a, b]) == a.text + b.separator + b.text
  {
    assert [a, b][..1] == [a];
  }

  lemma JoinThree(a: Part, b: Part, c: Part)
    ensures JoinParts([a, b, c]) == a.text + b.separator + b.text + c.separator + c.text
  {
    assert [a, b, c][..2] == [a, b];
    JoinTwo(a, b);
  }

  /** On a split duration: with non-empty plural strings, the builder produces the joined
      positive parts. */
  lemma TextOfSplitJoinsParts(p: Split, plural: (TimeUnit, int) -> string)
    requires forall u: TimeUnit, n: int :: n > 0 ==> |plural(u, n)| > 0
    ensures TextOfSplit(p, plural) == JoinParts(PartsOfSplit(p, plural))
  {
    var ps := PartsOfSplit(p, plural);
    var h, m, sec := Part("", plural(Hours, p.hours)), Part(" ", plural(Minutes, p.minutes)), Part(" & ", plural(Seconds, p.seconds));
    if p.hours > 0 && p.minutes > 0 && p.seconds > 0 {
      assert ps == [h, m, sec];
      JoinThree(h, m, sec);
    } else if p.hours > 0 && p.minutes > 0 {
      assert ps == [h, m];
      JoinTwo(h, m);
    } else if p.hours > 0 && p.seconds > 0 {
      assert ps == [h, sec];
      JoinTwo(h, sec);
    } else if p.minutes > 0 && p.seconds > 0 {
      assert ps == [m, sec];
      JoinTwo(m, sec);
    }
  }

  /** With non-empty plural strings, the duration text joins exactly the positive parts,
      and it is empty exactly when the duration is not positive. */
  lemma DurationTextJoinsParts(d: int, plural: (TimeUnit, int) -> string)
    requires forall u: TimeUnit, n: int :: n > 0 ==> |plural(u, n)| > 0
    ensures ToDurationText(d, plural) == JoinParts(Parts(d, plural))
    ensures ToDurationText(d, plural) == "" <==> d <= 0
  {
    var p := SplitDuration(d);
    TextOfSplitJoinsParts(p, plural);
    if d > 0 {
      assert p.hours > 0 || p.minutes > 0 || p.seconds > 0;
    }
  }

  /* ---------------------------------------------------------------- */
  /* Stat tiles                                                       */
  /* ---------------------------------------------------------------- */

  function HasCalls(item: DataItem): bool
  {
    item.count > 0
  }

  /** The stats grid: the windows with at least one call, in order, two per row. */
  function StatTiles(data: seq<DataItem>): (rows: seq<seq<DataItem>>)
    ensures Flatten(rows) == Filter(data, HasCalls)
    ensures forall i :: 0 <= i < |rows| ==> 0 < |rows[i]| <= 2
    ensures forall i :: 0 <= i < |rows| - 1 ==> |rows[i]| == 2
  {
    Chunked(Filter(data, HasCalls), 2)
  }

  /** Every tile shown has a positive count, every window with a positive count is shown
      once, and the grid has ceil(n / 2) rows for n such windows. */
  lemma StatTilesShowNonEmptyWindows(data: seq<DataItem>)
    ensures forall i, j :: 0 <= i < |StatTiles(data)| && 0 <= j < |StatTiles(data)[i]| ==> StatTiles(data)[i][j].count > 0
    ensures forall i :: 0 <= i < |data| && data[i].count > 0 ==> data[i] in Flatten(StatTiles(data))
    ensures |StatTiles(data)| == (|Filter(data, HasCalls)| + 1) / 2
  {
    var rows: seq<seq<DataItem>> := StatTiles(data);
    var kept: seq<DataItem> := Filter(data, HasCalls);
    forall i, j | 0 <= i < |rows| && 0 <= j < |rows[i]|
      ensures rows[i][j].count > 0
    {
      FlattenContains(rows, i, j);
    }
    forall i | 0 <= i < |data| && data[i].count > 0
      ensures data[i] in Flatten(rows)
    {
    }
    ChunkedRowCount(kept, 2);
  }

  /** Before anything is loaded the grid is empty, as it is for the tiles of no calls. */
  lemma InitialTilesEmpty(anchors: Anchors)
    ensures StatTiles(Initial().data) == []
    ensures StatTiles(GetData([], anchors)) == []
  {
    var data := GetData([], anchors);
    forall i | 0 <= i < |data|
      ensures !HasCalls(data[i])
    {
    }
    FilterNone(data, HasCalls);
  }

  /* ---------------------------------------------------------------- */
  /* Calls per day and the day grouping                               */
  /* ---------------------------------------------------------------- */

  /** The day key of a call; `dayOf` stands for the calendar's day of the year. */
  function DayKey(dayOf: int -> int): CallLogEntry -> int
  {
    (c: CallLogEntry) => dayOf(c.date)
  }

  /** The line chart's series: each distinct day in order of first appearance, and the
      number of calls on it. */
  datatype Series = Series(days: seq<int>, counts: seq<int>)

  function CallsPerDay(data: seq<CallLogEntry>, dayOf: int -> int): (r: Series)
    ensures |r.days| == |r.counts|
    ensures NoDuplicates(r.days)
    ensures forall i :: 0 <= i < |data| ==> dayOf(data[i].date) in r.days
    ensures forall i :: 0 <= i < |r.days| ==> r.days[i] in Map(data, DayKey(dayOf))
    ensures forall i :: 0 <= i < |r.days| ==> r.counts[i] == |Filter(data, KeyIs(DayKey(dayOf), r.days[i]))|
    ensures forall i, j :: 0 <= i < j < |r.days| ==>
      FirstIndex(Map(data, DayKey(dayOf)), r.days[i]) < FirstIndex(Map(data, DayKey(dayOf)), r.days[j])
  {
    var key := DayKey(dayOf);
    var days := Distinct(Map(data, key));
    DistinctFirstAppearance(Map(data, key));
    assert forall i :: 0 <= i < |data| ==> Map(data, key)[i] == dayOf(data[i].date);
    Series(days, KeyCounts(data, key))
  }

  /** Every day on the chart has at least one call, and the points add up to all the
      calls. */
  lemma CallsPerDayCountsAll(data: seq<CallLogEntry>, dayOf: int -> int)
    ensures forall i :: 0 <= i < |CallsPerDay(data, dayOf).counts| ==> CallsPerDay(data, dayOf).counts[i] >= 1
    ensures Sum(CallsPerDay(data, dayOf).counts) == |data|
  {
    KeyCountsPartition(data, DayKey(dayOf));
  }

  /** The calls tab: the filtered calls grouped by day under sticky headers. */
  function GroupByDay(filteredCalls: seq<CallLogEntry>, dayOf: int -> int): (gs: seq<Group<CallLogEntry>>)
  {
    GroupBy(filteredCalls, DayKey(dayOf))
  }

  /** The groups are headed by the distinct days in order of first appearance, each holds
      exactly that day's calls in their original order, and together they hold every call
      once. */
  lemma GroupByDayPartitions(filteredCalls: seq<CallLogEntry>, dayOf: int -> int)
    ensures KeyedFilters(GroupByDay(filteredCalls, dayOf), filteredCalls, DayKey(dayOf), Distinct(Map(filteredCalls, DayKey(dayOf))))
    ensures multiset(FlattenGroups(GroupByDay(filteredCalls, dayOf))) == multiset(filteredCalls)
  {
    GroupByIsKeyedFilter(filteredCalls, DayKey(dayOf));
    GroupByPermutation(filteredCalls, DayKey(dayOf));
  }

  /* ---------------------------------------------------------------- */
  /* The threshold field                                              */
  /* ---------------------------------------------------------------- */

  /** The field shows nothing for a zero threshold and the number otherwise. */
  function ThresholdText(fromDuration: Int32): (r: string)
    ensures r == "" <==> fromDuration == 0
    ensures fromDuration > 0 ==> AllDigits(r) && r[0] != '0'
    ensures fromDuration < 0 ==> r[0] == '-' && |r| >= 2 && r[1] != '0'
  {
    if fromDuration == 0 then ""
    else
      IntToStringCanonical(fromDuration);
      IntToString(fromDuration)
  }

  /** What an edit of the field sets the threshold to: the number typed, or 0 when the
      text is not one. */
  function ThresholdOf(text: string): (r: Int32)
    ensures ToIntOrNull(text) == None ==> r == 0
    ensures ToIntOrNull(text).Some? ==> r == ToIntOrNull(text).value
    ensures r != 0 ==> ToIntOrNull(text) == Some(r)
  {
    ToIntOrNull(text).OrElse(0)
  }

  /** `onValueChange` of the field. */
  function OnThresholdTextChange(s: UiState, text: string): (r: UiState)
    ensures r.fromDuration == ThresholdOf(text)
    ensures r.calls == s.calls && r.selectedCallTypes == s.selectedCallTypes
    ensures r.statistics == s.statistics && r.data == s.data
    ensures Consistent(r)
  {
    OnDurationChange(s, ThresholdOf(text))
  }

  /** Reading back the text the field shows gives the threshold it shows. */
  lemma ThresholdFieldRoundTrip(d: Int32)
    ensures ThresholdOf(ThresholdText(d)) == d
  {
    if d != 0 {
      ToIntOrNullInvertsToString(d);
    }
  }

  /** Clearing the field or typing something that is not a number disables the threshold:
      afterwards a call is kept exactly when its direction is selected and its number is
      allowed. */
  lemma NonNumericTextDisablesThreshold(s: UiState, text: string, c: CallLogEntry)
    requires ToIntOrNull(text) == None
    ensures ThresholdOf(text) == 0
    ensures IsValidCall(OnThresholdTextChange(s, text), c) <==> c.callType in s.selectedCallTypes && c.number in ALLOWED_NUMBERS
  {
  }
}
