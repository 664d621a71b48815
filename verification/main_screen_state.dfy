/** The main screen's UI state record and the summary records it carries. */
module MainScreenState {
  import opened Optional
  import opened Decimal
  import opened CallLog

  /** The eight time windows of the stats tab, in display order (the string resources
      start_of_hour, last_hour, ... last_month). */
  datatype Label =
    | StartOfHour | LastHour
    | StartOfDay | LastDay
    | StartOfWeek | LastWeek
    | StartOfMonth | LastMonth

  const LABELS: seq<Label> :=
    [StartOfHour, LastHour, StartOfDay, LastDay, StartOfWeek, LastWeek, StartOfMonth, LastMonth]

  /** A stat tile: how many filtered calls started at or after `fromMillis`; `window` is the
      tile's label. */
  datatype DataItem = DataItem(count: int, window: Label, fromMillis: int)

  /** The summary of the filtered calls. */
  datatype Statistics = Statistics(
    longestCall: CallLogEntry,
    mostBusiestHour: int,
    totalDurationStartOfHour: int,
    totalDurationStartOfDay: int,
    totalDurationStartOfWeek: int,
    totalDurationStartOfMonth: int)

  /** Everything the main screen shows: the fetched calls, those passing the filter, the
      filter criteria (duration threshold and selected directions) and the summaries. */
  datatype UiState = UiState(
    calls: seq<CallLogEntry>,
    filteredCalls: seq<CallLogEntry>,
    fromDuration: Int32,
    selectedCallTypes: seq<CallType>,
    statistics: Option<Statistics>,
    data: seq<DataItem>)

  /** The state the view-model starts from. */
  function Initial(): UiState
  {
    UiState(
      calls := [],
      filteredCalls := [],
      fromDuration := 0,
      selectedCallTypes := [Incoming],
      statistics := None,
      data := [])
  }
}
