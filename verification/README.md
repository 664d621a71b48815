# Yedidim call counter — a Dafny model of its core

The app reads the device's call log and keeps only some of the calls. A call is kept when:
- its direction is selected,
- it lasts at least a user-chosen number of seconds, when that threshold is positive,
- it is with one of two allowed numbers.

From the kept calls it computes:
- eight time-window counts ("stat tiles"): since the start of the hour, day, week (the last Friday) and month, and over the last hour, day, week and month;
- a summary: the longest call, the busiest hour, and the total talk time since each "start of" boundary;
- the calls-per-day chart series;
- the per-day grouping of the call list.

An onboarding screen asks for the call-log permission first and the notification permission second.

The model is split into modules:
- `Optional`: an option type.
- `Collections`: the Kotlin collection operations the app relies on. These are `filter`, `sumBy`, `distinct`, `groupBy` as a first-appearance-ordered map, `chunked`, and `maxByOrNull`, which keeps the first maximum. Each comes with a property relating it to an independent description. For example, `groupBy` yields, for each distinct key in order, exactly the filter of the list by that key, and `sumBy` distributes over concatenation.
- `Decimal`: `Int.toString()`, `String.toIntOrNull()` and `%02d`.
- `CallLog`: the call entry and the mapping of the platform's type codes.
- `Permission`: the onboarding permission state.
- `MainScreenState`: the UI state record and its defaults.
- `MainScreenViewModel`: the filter, the two filter actions, loading cursor rows, the windows, the statistics, the start-of-week offset and one refresh.
- `MainScreen`: the screen-side pure helpers. These are the two duration formatters, the stat-tile grid, the per-day chart series, the per-day grouping and the threshold text field.

Clock readings are inputs of the model. Each time boundary is a field of `Anchors`. The hour and the day of the year of a timestamp come from functions `hourOf` and `dayOf` passed as parameters. The device's call-log query is a `cursor` parameter: `None` is a null cursor, `Some(rows)` gives the rows in cursor order. The stored threshold is a parameter `stored`: `None` means nothing was ever stored. Plural string resources are a function `plural(unit, n)`.

Behaviour of the app that is easy to misread:
- Every threshold at or below zero disables the duration check (`takeIf { it > 0 }`).
- Changing the threshold or the selected directions re-filters the calls. The statistics and the tiles keep their values until the next refresh.
- The "ago" boundaries are one hour, one day, one week and one month ago. The "start of" boundaries are the start of the hour, day, week and month.
- The busiest-hour tie-break is deterministic. `groupBy` builds an insertion-ordered map, so the first hour in list order among those with the most calls wins.
- The "start of" boundaries truncate different fields. The start of the day keeps seconds and milliseconds, the start of the hour zeroes seconds but not milliseconds, and only the start of the week zeroes everything. So no order between the start of the hour and the start of the day is assumed.

## Model

| member | source | states |
|---|---|---|
| CallLog.CallTypeOf | app/src/main/java/com/yeudaby/callscounter/screens/mainScreen/MainScreenViewModel.kt:233-237 | type code 1 is incoming and code 2 outgoing, each if and only if; every other code, unknown ones included, is missed |
| CallLog.CallTypeOfCodeOf | app/src/main/java/com/yeudaby/callscounter/screens/mainScreen/MainScreenViewModel.kt:233-237 | the code of each direction maps back to that direction |
| CallLog.EntryOf | app/src/main/java/com/yeudaby/callscounter/screens/mainScreen/MainScreenViewModel.kt:229-244 | a cursor row becomes an entry with the same date, number and duration and the mapped direction |
| Permission.Update | app/src/main/java/com/yeudaby/callscounter/screens/permission/PermissionViewModel.kt:19-27 | ALL_GRANTED if and only if both permissions are granted; CALL_LOG if and only if the call log is not granted; NOTIFICATION if and only if only the call log is granted |
| Permission.UpdateIgnoresCurrent | app/src/main/java/com/yeudaby/callscounter/screens/permission/PermissionViewModel.kt:19-27 | the previous state does not affect the update, so repeating an update changes nothing |
| Permission.OnGranted | app/src/main/java/com/yeudaby/callscounter/screens/permission/PermissionScreen.kt:32-49 | a grant never leads back to the call-log prompt, every prompt moves to a different state, and ALL_GRANTED stays put |
| Permission.OnboardingFlow | app/src/main/java/com/yeudaby/callscounter/screens/permission/PermissionScreen.kt:32-50 | from the initial CALL_LOG state, one grant leads to NOTIFICATION and a second to ALL_GRANTED, which is final |
| MainScreenViewModel.IsValidCall | app/src/main/java/com/yeudaby/callscounter/screens/mainScreen/MainScreenViewModel.kt:259-271 | a call passes if and only if its direction is selected, it lasts at least the threshold when the threshold is positive, and its number is "1230" or "0533131310" |
| MainScreenViewModel.SameCriteriaSameFilter | app/src/main/java/com/yeudaby/callscounter/screens/mainScreen/MainScreenViewModel.kt:262-270 | two states with the same selected directions and the same effective threshold keep the same calls of any list |
| MainScreenViewModel.FilterCalls | app/src/main/java/com/yeudaby/callscounter/screens/mainScreen/MainScreenViewModel.kt:195-200 | a call is in the new filtered list if and only if it is one of the calls and valid under the state's criteria; nothing else in the state changes, and the filter invariant holds afterwards |
| MainScreenViewModel.FilterCallsKeepsOccurrences | app/src/main/java/com/yeudaby/callscounter/screens/mainScreen/MainScreenViewModel.kt:195-200 | the filtered list is an order-preserving subsequence of the calls and holds every valid call as often as the calls do |
| MainScreenViewModel.FilterCallsIdempotent | app/src/main/java/com/yeudaby/callscounter/screens/mainScreen/MainScreenViewModel.kt:195-200 | re-filtering the filtered calls, or filtering twice, changes nothing |
| MainScreenViewModel.UnlistedNumberNeverKept | app/src/main/java/com/yeudaby/callscounter/screens/mainScreen/MainScreenViewModel.kt:270 | a call with a number outside the allowlist is never kept, whatever the criteria |
| MainScreenViewModel.OnDurationChange | app/src/main/java/com/yeudaby/callscounter/screens/mainScreen/MainScreenViewModel.kt:85-97 | sets the threshold and re-establishes the filter invariant; calls, selected directions, statistics and tiles are untouched |
| MainScreenViewModel.ThresholdIsInclusive | app/src/main/java/com/yeudaby/callscounter/screens/mainScreen/MainScreenViewModel.kt:266-267 | a call lasting exactly the threshold passes the duration check |
| MainScreenViewModel.NonPositiveThresholdDisabled | app/src/main/java/com/yeudaby/callscounter/screens/mainScreen/MainScreenViewModel.kt:262 | any threshold at or below zero keeps the same calls as threshold zero |
| MainScreenViewModel.RaisingThresholdKeepsFewer | app/src/main/java/com/yeudaby/callscounter/screens/mainScreen/MainScreenViewModel.kt:262-270 | the calls kept under a higher threshold are the calls kept under a lower one, filtered again; never more of them |
| MainScreenViewModel.Toggle | app/src/main/java/com/yeudaby/callscounter/screens/mainScreen/MainScreenViewModel.kt:102-111 | an absent direction becomes present and a present one absent (in a list without duplicates); other directions keep their membership; no duplicates are introduced |
| MainScreenViewModel.OnCallTypeCheckedChange | app/src/main/java/com/yeudaby/callscounter/screens/mainScreen/MainScreenViewModel.kt:99-113 | flips membership of the chosen direction, keeps the others, re-establishes the filter invariant, leaves calls, threshold, statistics and tiles untouched |
| MainScreenViewModel.ToggleTwiceRestores | app/src/main/java/com/yeudaby/callscounter/screens/mainScreen/MainScreenViewModel.kt:99-113 | checking and unchecking the same direction gives back the same selection as a set and the same filtered calls |
| MainScreenViewModel.ActionsPreserveWellFormed | app/src/main/java/com/yeudaby/callscounter/screens/mainScreen/MainScreenViewModel.kt:85-113 | both filter actions keep the filter invariant and a duplicate-free selection |
| MainScreenViewModel.GetCallsLog | app/src/main/java/com/yeudaby/callscounter/screens/mainScreen/MainScreenViewModel.kt:227-256 | every cursor row is appended, in cursor order, after the existing calls; a null cursor appends nothing; the result is re-filtered and nothing else changes |
| MainScreenViewModel.FilterByDate | app/src/main/java/com/yeudaby/callscounter/screens/mainScreen/MainScreenViewModel.kt:336-342 | a call is in the result if and only if it is a filtered call that started at or after the boundary, and the result is no longer than the filtered calls |
| MainScreenViewModel.FilterByDateKeepsOccurrences | app/src/main/java/com/yeudaby/callscounter/screens/mainScreen/MainScreenViewModel.kt:336-342 | the calls since the boundary keep their order and every occurrence |
| MainScreenViewModel.FilterByDateAntitone | app/src/main/java/com/yeudaby/callscounter/screens/mainScreen/MainScreenViewModel.kt:336-342 | a later boundary selects a sub-selection of an earlier one, so never more calls |
| MainScreenViewModel.WindowCountsOrdered | app/src/main/java/com/yeudaby/callscounter/screens/mainScreen/MainScreenViewModel.kt:336-342 | with boundaries ordered hour, day, week, month ago, the hour window never counts more calls than the day window |
| MainScreenViewModel.Tile | app/src/main/java/com/yeudaby/callscounter/screens/mainScreen/MainScreenViewModel.kt:117-121 | a tile carries its window, that window's boundary, and the number of filtered calls since it, at most all of them |
| MainScreenViewModel.GetData | app/src/main/java/com/yeudaby/callscounter/screens/mainScreen/MainScreenViewModel.kt:115-159 | exactly eight tiles, one per window, in the order start of hour, last hour, start of day, last day, start of week, last week, start of month, last month |
| MainScreenViewModel.DataCountsFollowRecency | app/src/main/java/com/yeudaby/callscounter/screens/mainScreen/MainScreenViewModel.kt:274-334 | with boundaries from one clock reading, the last hour, day, week and month counts never decrease, and the start-of-day count never exceeds the start-of-week count |
| MainScreenViewModel.LongestCall | app/src/main/java/com/yeudaby/callscounter/screens/mainScreen/MainScreenViewModel.kt:163 | the result is one of the calls, at least as long as each, and strictly longer than every call before it (first maximum) |
| MainScreenViewModel.BusiestHour | app/src/main/java/com/yeudaby/callscounter/screens/mainScreen/MainScreenViewModel.kt:164-171 | the result is an hour some call falls in, no hour holds more calls, and every hour first met earlier in the list holds strictly fewer |
| MainScreenViewModel.BusiestHourOfOne | app/src/main/java/com/yeudaby/callscounter/screens/mainScreen/MainScreenViewModel.kt:164-171 | with a single call the busiest hour is that call's hour |
| MainScreenViewModel.TotalDurationAntitone | app/src/main/java/com/yeudaby/callscounter/screens/mainScreen/MainScreenViewModel.kt:172-183 | over calls of non-negative length, the total since a later boundary is between zero and the total since an earlier one, which is at most the sum of all lengths |
| MainScreenViewModel.TotalDurationSince | app/src/main/java/com/yeudaby/callscounter/screens/mainScreen/MainScreenViewModel.kt:172-183 | the `sumBy` of the calls `FilterByDate` keeps at the boundary; its contracts are `TotalDurationAntitone` and `TotalDurationOfOne` |
| MainScreenViewModel.GetStatistics | app/src/main/java/com/yeudaby/callscounter/screens/mainScreen/MainScreenViewModel.kt:161-192 | no summary if and only if there are no filtered calls; otherwise the longest call, the busiest hour, and the total length of the calls since the start of the hour, day, week and month |
| MainScreenViewModel.TotalDurationOfOne | app/src/main/java/com/yeudaby/callscounter/screens/mainScreen/MainScreenViewModel.kt:172-174 | the total of a single call is its length if it started at or after the boundary and zero otherwise |
| MainScreenViewModel.StatisticsOfOneCall | app/src/main/java/com/yeudaby/callscounter/screens/mainScreen/MainScreenViewModel.kt:161-192 | for one filtered call the summary is that call, its hour, and its length in exactly the windows it started in |
| MainScreenViewModel.DaysBefore | app/src/main/java/com/yeudaby/callscounter/screens/mainScreen/MainScreenViewModel.kt:311 | stepping back days through the week always stays on a day of the week (Sunday 1 to Saturday 7) |
| MainScreenViewModel.DaysToSubtract | app/src/main/java/com/yeudaby/callscounter/screens/mainScreen/MainScreenViewModel.kt:309-310 | the offset is between 0 and 6, and 0 exactly on a Friday |
| MainScreenViewModel.DaysToSubtractFindsLastFriday | app/src/main/java/com/yeudaby/callscounter/screens/mainScreen/MainScreenViewModel.kt:306-311 | going back the offset lands on a Friday and no shorter step does, so the week starts at the most recent Friday |
| MainScreenViewModel.Init | app/src/main/java/com/yeudaby/callscounter/screens/mainScreen/MainScreenViewModel.kt:37-66 | after a refresh the threshold is the stored one (0 if none), the calls are exactly the cursor rows as entries (none for a null cursor), the filter invariant holds, and statistics and tiles are those of the filtered calls |
| MainScreenViewModel.LoadFresh | app/src/main/java/com/yeudaby/callscounter/screens/mainScreen/MainScreenViewModel.kt:51-60 | after emptying both lists and reading the cursor, the calls are exactly the converted rows in cursor order (none without a cursor), the criteria are untouched and the filtered list agrees with them |
| MainScreenViewModel.ApplyStoredThreshold | app/src/main/java/com/yeudaby/callscounter/screens/mainScreen/MainScreenViewModel.kt:43-47 | the collector sets the threshold to the stored value and leaves the lists, the selection, the summary and the tiles as they were |
| MainScreenViewModel.StoredThresholdKeepsFilter | app/src/main/java/com/yeudaby/callscounter/screens/mainScreen/MainScreenViewModel.kt:43-47 | the filter invariant survives the collector when the effective threshold does not change |
| MainScreenViewModel.LateStoredThresholdBreaksFilter | app/src/main/java/com/yeudaby/callscounter/screens/mainScreen/MainScreenViewModel.kt:43-64 | a stored threshold that arrives after loading and changes the effective threshold leaves the filtered list out of step with the criteria |
| MainScreenViewModel.Summarize | app/src/main/java/com/yeudaby/callscounter/screens/mainScreen/MainScreenViewModel.kt:61-64 | the summary and the tiles are recomputed from the filtered calls while the lists and criteria stay as they were, so the filter invariant still holds |
| MainScreenViewModel.InitialState | app/src/main/java/com/yeudaby/callscounter/screens/mainScreen/MainScreenUiState.kt:6-13 | the default state is well formed, keeps exactly the incoming calls with allowed numbers whatever their length, and its empty summary is the one for no calls |
| MainScreen.SplitDuration | app/src/main/java/com/yeudaby/callscounter/screens/mainScreen/MainScreen.kt:534-536 | hours, minutes and seconds recombine to the duration; for a non-negative duration minutes and seconds are below 60 and nothing is negative; for a negative one nothing is positive |
| MainScreen.SplitDurationTruncates | app/src/main/java/com/yeudaby/callscounter/screens/mainScreen/MainScreen.kt:534-536 | the split is the one computed with Kotlin's truncating `/` and `%` on `Long`, negative durations included |
| MainScreen.ToDurationString | app/src/main/java/com/yeudaby/callscounter/screens/mainScreen/MainScreen.kt:533-538 | the clock text has colons before the last five and last two characters, and is exactly eight characters below 100 hours; with `DurationStringRoundTrip` and `DurationStringHoursCanonical`, it is the `%02d` text of the hours, minutes and seconds |
| MainScreen.DurationStringRoundTrip | app/src/main/java/com/yeudaby/callscounter/screens/mainScreen/MainScreen.kt:533-538 | splitting the clock text of a non-negative duration at its two colons gives three digit fields that read back as exactly the duration's hours, minutes and seconds, so a text such as "00:60:00" for one hour is excluded |
| MainScreen.DurationStringHoursCanonical | app/src/main/java/com/yeudaby/callscounter/screens/mainScreen/MainScreen.kt:537 | from ten hours up the clock text starts with a non-zero digit; with the length of eight below a hundred hours, no other text reads back as the same hours, minutes and seconds |
| MainScreen.ToDurationText | app/src/main/java/com/yeudaby/callscounter/screens/mainScreen/MainScreen.kt:540-567 | a duration at or below zero gives the empty text |
| MainScreen.TextOfSplit | app/src/main/java/com/yeudaby/callscounter/screens/mainScreen/MainScreen.kt:550-566 | the `StringBuilder` with its `isNotEmpty` separators; its contract is `TextOfSplitJoinsParts`: the positive parts joined by " " before the minutes and " & " before the seconds |
| MainScreen.TextOfSplitJoinsParts | app/src/main/java/com/yeudaby/callscounter/screens/mainScreen/MainScreen.kt:550-566 | with non-empty plural strings, the string builder equals the join of the positive parts, with " " before minutes and " & " before seconds only after an earlier part |
| MainScreen.DurationTextJoinsParts | app/src/main/java/com/yeudaby/callscounter/screens/mainScreen/MainScreen.kt:540-567 | with non-empty plural strings, the duration text is the join of the positive parts, largest unit first, and it is empty if and only if the duration is not positive |
| MainScreen.StatTiles | app/src/main/java/com/yeudaby/callscounter/screens/mainScreen/MainScreen.kt:217-219 | the rows, read in order, are exactly the tiles with a positive count; every row has one or two tiles and all but the last have two |
| MainScreen.StatTilesShowNonEmptyWindows | app/src/main/java/com/yeudaby/callscounter/screens/mainScreen/MainScreen.kt:217-219 | every tile shown has calls, every window with calls is shown, and there are ceil(n/2) rows for n such windows |
| MainScreen.InitialTilesEmpty | app/src/main/java/com/yeudaby/callscounter/screens/mainScreen/MainScreen.kt:217-219 | the grid is empty both for the default state and for the tiles of no calls |
| MainScreen.CallsPerDay | app/src/main/java/com/yeudaby/callscounter/screens/mainScreen/MainScreen.kt:283-290 | one point per distinct day, no day twice, the days in order of their first appearance in the calls, every call's day present and only those, each count the number of calls on that day |
| MainScreen.CallsPerDayCountsAll | app/src/main/java/com/yeudaby/callscounter/screens/mainScreen/MainScreen.kt:283-290 | every day on the chart has at least one call and the counts add up to the number of calls |
| MainScreen.GroupByDay | app/src/main/java/com/yeudaby/callscounter/screens/mainScreen/MainScreen.kt:362 | the calls tab's `groupBy { it.date.getDay() }`; its contract is `GroupByDayPartitions` |
| MainScreen.GroupByDayPartitions | app/src/main/java/com/yeudaby/callscounter/screens/mainScreen/MainScreen.kt:362 | the sticky sections are the distinct days in order of first appearance, each holds that day's calls in their original order, and together they hold every call exactly once |
| MainScreen.ThresholdFieldRoundTrip | app/src/main/java/com/yeudaby/callscounter/screens/mainScreen/MainScreen.kt:402-403 | parsing the text the field shows for a threshold gives that threshold back, zero shown as the empty field included |
| MainScreen.NonNumericTextDisablesThreshold | app/src/main/java/com/yeudaby/callscounter/screens/mainScreen/MainScreen.kt:403 | an empty or non-numeric edit sets the threshold to 0, after which a call passes exactly when its direction is selected and its number allowed |
| MainScreen.ThresholdText | app/src/main/java/com/yeudaby/callscounter/screens/mainScreen/MainScreen.kt:402 | the field is empty if and only if the threshold is 0; otherwise it shows the threshold's `toString()` with no leading zero: digits for a positive value, a minus sign and then a non-zero digit for a negative one |
| MainScreen.ThresholdOf | app/src/main/java/com/yeudaby/callscounter/screens/mainScreen/MainScreen.kt:403 | `toIntOrNull() ?: 0`: any text that parses as an `Int` (signed, unsigned, or with leading zeros such as "05") gives that `Int`, and any other text gives 0 |
| MainScreen.OnThresholdTextChange | app/src/main/java/com/yeudaby/callscounter/screens/mainScreen/MainScreen.kt:403 | an edit sets the threshold to the parsed text and re-filters, keeping the calls, the selection, the summary and the tiles, and the filter invariant holds afterwards |
| Decimal.ToIntOrNull | app/src/main/java/com/yeudaby/callscounter/screens/mainScreen/MainScreen.kt:403 | null if and only if the text is not an optional sign followed by at least one digit, or its value is outside the `Int` range; otherwise the value the text denotes: the digits' value, negated after a minus sign |
| Decimal.ToIntOrNullInvertsToString | app/src/main/java/com/yeudaby/callscounter/screens/mainScreen/MainScreen.kt:402-403 | every `Int` printed and parsed back is itself |
| Decimal.IntToString | app/src/main/java/com/yeudaby/callscounter/screens/mainScreen/MainScreen.kt:402 | a leading minus sign exactly for negative values, followed by digits that read back as the magnitude |
| Decimal.IntToStringCanonical | app/src/main/java/com/yeudaby/callscounter/screens/mainScreen/MainScreen.kt:402 | the printed `Int` has no leading zero: only zero starts with `0`, and after a minus sign comes a non-zero digit |
| Decimal.Pad2 | app/src/main/java/com/yeudaby/callscounter/screens/mainScreen/MainScreen.kt:537 | at least two characters and exactly two below 100; non-negative values are digits that read back as the value |
| Decimal.Pad2Canonical | app/src/main/java/com/yeudaby/callscounter/screens/mainScreen/MainScreen.kt:537 | `%02d` adds a zero only to a single digit: a value below 10 starts with one leading zero, a value of 10 or more with a non-zero digit; a negative value is a minus sign followed by the digits of its magnitude with no leading zero |
| Collections.Filter | app/src/main/java/com/yeudaby/callscounter/screens/mainScreen/MainScreenViewModel.kt:196 | no longer than the list; an element is kept if and only if it is in the list and passes |
| Collections.Map | app/src/main/java/com/yeudaby/callscounter/screens/mainScreen/MainScreen.kt:283 | Kotlin's `map`: the same length, each element the function of the element at the same position |
| Collections.FilterKeepsOccurrences | app/src/main/java/com/yeudaby/callscounter/screens/mainScreen/MainScreenViewModel.kt:196 | `filter` gives an order-preserving subsequence holding every passing element with its full multiplicity |
| Collections.SumByConcat | app/src/main/java/com/yeudaby/callscounter/screens/mainScreen/MainScreenViewModel.kt:172-183 | `sumBy` distributes over concatenation |
| Collections.SumByOne | app/src/main/java/com/yeudaby/callscounter/screens/mainScreen/MainScreenViewModel.kt:172-183 | a single element sums to its own value |
| Collections.SumBy | app/src/main/java/com/yeudaby/callscounter/screens/mainScreen/MainScreenViewModel.kt:172-183 | Kotlin's `sumBy`; its contract is `SumByOne` and `SumByConcat`, which together fix it as the sum of the function over the elements |
| Collections.Minus | app/src/main/java/com/yeudaby/callscounter/screens/mainScreen/MainScreenViewModel.kt:109 | removes one occurrence when present and nothing otherwise: one element shorter and one copy of the value fewer |
| Collections.MinusRemovesFirst | app/src/main/java/com/yeudaby/callscounter/screens/mainScreen/MainScreenViewModel.kt:109 | the occurrence removed is the first one, and the elements before and after it keep their order |
| Collections.MinusNoDuplicates | app/src/main/java/com/yeudaby/callscounter/screens/mainScreen/MainScreenViewModel.kt:109 | removing a value from a duplicate-free list leaves it duplicate-free and without that value |
| Collections.Distinct | app/src/main/java/com/yeudaby/callscounter/screens/mainScreen/MainScreen.kt:283 | every value of the list exactly once and nothing else, in order of first appearance |
| Collections.DistinctFirstAppearance | app/src/main/java/com/yeudaby/callscounter/screens/mainScreen/MainScreen.kt:283 | the distinct values are listed in the order of their first occurrence in the list |
| Collections.GroupByIsKeyedFilter | app/src/main/java/com/yeudaby/callscounter/screens/mainScreen/MainScreenViewModel.kt:164-171 | `groupBy` gives one group per distinct key in order of first appearance, each holding exactly the filter of the list by that key |
| Collections.GroupByPermutation | app/src/main/java/com/yeudaby/callscounter/screens/mainScreen/MainScreen.kt:362 | the groups together are a permutation of the list |
| Collections.GroupBy | app/src/main/java/com/yeudaby/callscounter/screens/mainScreen/MainScreenViewModel.kt:164 | Kotlin's `groupBy` into a `LinkedHashMap`; its contract is `GroupByIsKeyedFilter` and `GroupByPermutation` |
| Collections.LargestGroupIsFirstLargestKey | app/src/main/java/com/yeudaby/callscounter/screens/mainScreen/MainScreenViewModel.kt:171 | `maxByOrNull` on group sizes picks the first key, in list order, with the largest number of elements |
| Collections.KeyCountsPartition | app/src/main/java/com/yeudaby/callscounter/screens/mainScreen/MainScreen.kt:286-289 | every distinct key occurs at least once and the per-key counts add up to the list's length |
| Collections.KeyCounts | app/src/main/java/com/yeudaby/callscounter/screens/mainScreen/MainScreen.kt:286-289 | one count per distinct key, in first-appearance order, each the number of elements with that key |
| Collections.Chunked | app/src/main/java/com/yeudaby/callscounter/screens/mainScreen/MainScreen.kt:219 | the rows concatenate to the list; each has one to n elements and all but the last exactly n |
| Collections.ChunkedRowCount | app/src/main/java/com/yeudaby/callscounter/screens/mainScreen/MainScreen.kt:219 | n times the number of rows covers the list with less than one row to spare |
| Collections.FirstMaxIndex | app/src/main/java/com/yeudaby/callscounter/screens/mainScreen/MainScreenViewModel.kt:163 | the index of a maximum, strictly above every element before it |

## Left out

- Reading the clock and `java.util.Calendar`: the boundaries, the hour of a timestamp and the day of the year are inputs. Time zones, daylight saving and the month and week arithmetic of the calendar are not modelled.
- The call-log query itself (`ContentResolver.query`, its date-range selection and its descending sort order): the cursor rows are an input, in whatever order they arrive.
- The preference store: the stored threshold is an input of `Init`, and the write in `onDurationChange` is a side effect left out.
- Concurrency in `init`: the threshold collector and the loading coroutine run concurrently in the app. The periodic refresh of the activity is outside the model.
- Init: it applies the stored threshold before loading. That is the only order in which the filter invariant is guaranteed after `init`. The collector only copies the value and does not re-filter. If the stored value arrives after the calls are loaded and changes the effective threshold, the filtered list, the summary and the tiles reflect the old threshold until the next refresh. `ApplyStoredThreshold` and `LateStoredThresholdBreaksFilter` model that other order.
- Init: the call-log query range (one month back to now) is not modelled, because the rows are given.
- GetStatistics: `sumBy` on `Int` can overflow in the app, and each `Long` duration is narrowed by `toInt()` before it is summed. The model sums unbounded integers and does not narrow.
- GetStatistics: the app reads the clock for each "start of" boundary inside the filter lambda, once per call, and separately from `getData`. The model reads each boundary once, from one `Anchors` value shared by the summary and the tiles (see `Summarize`).
- ToDurationString: `String.format` uses the default locale's digits; only ASCII digits are modelled.
- Decimal.ToIntOrNull: only ASCII digits are recognised, while Kotlin also accepts other Unicode decimal digits.
- ToDurationText: the plural resources are a parameter, so the contract about the joined parts holds only for non-empty plural strings.
- GetData: the app calls each boundary function twice per tile, and the two readings may differ. The model reads each boundary once.
- Rendering: composables, charts, colours, icons, the bitmap sharing of a tile, the share-app intent and the permission request dialogs are not modelled. So are the date formatting of headers and tiles (`getDayOfMonth`, `formatLight`) and the Firebase messaging service.
- The counter screen's view-model and `utils.kt` are not part of this model.
