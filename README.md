# Appointment time grid

A Dafny model of the engine behind an appointment-booking time grid. A day
runs from a start time to an end time. It is cut into slots of a fixed
number of minutes (`getTimes`). Booked ("occupied") and externally
invalidated time ranges are merged (`mergeRanges`) and mapped onto spans of
slot indices (`getTimeIndices`). From these, the `cells` pipeline of
`useAppointment` builds the list of rendered cells:

1. one cell per occupied span;
2. one cell per invalid span;
3. one cell for the current selection;
4. one idle cell for every slot nothing else claimed;
5. the list sorted by slot index.

The selection is a pair of slot indices. `updateSelectedIndex`,
`updateSelectedTime`, `doExpandTime` and `doNarrowTime` change it. Growing
the selection stops at occupied or invalid cells (`isBlocked`).

Modules, one per part of the program:

- `TimeText` (`time_text.dfy`): `"HH:MM"` strings and minute counts.
  - `timeToNumber` splits at `:` and reads the first two fields with `parseInt`; on a `Time` there are exactly two.
  - `numberToTime` writes the hours and minutes zero-padded to two digits.
  - Also the display helpers `showTime` and `previewSelectedTimes`.
  - A time is any string of digits, one colon and digits (`Time`). It includes everything `numberToTime` writes. `timeToNumber` reads other strings too; those are listed under "## Left out".
- `AppointmentTypes` (`appointment_types.dfy`): `CellStatus`, `WorkMode`, `TimeRange`, `Cell` and `Indices`.
- `Sorting` (`sorting.dfy`): `Array.prototype.sort` with a key comparator, as a stable insertion sort.
- `SlotGrid` (`slot_grid.dfy`): `getTimes` and `getTimeIndices`.
  - Each is a method with the source's loop.
  - Each is proved against a function that specifies it (`TimeIndices`, `FirstHit`, `LastHit`) or a grid predicate (`IsGrid`, `IsCanonical`).
  - The grid and window reasoning is stated for any slot type read through a key function. The day's grid is the instance where the key is `TimeToNumber` and the writer is `NumberToTime`.
- `RangeMerge` (`range_merge.dfy`): `mergeRanges`.
  - `MergeRanges` works on the caller's array: it sorts the array in place, then runs the source's fold.
  - At line 111 the fold writes the extended end into the range object at the head of the current merged run. That object is an entry of the caller's array, so the array is changed too.
  - The model keeps both effects. `Merged` is the returned list. `MergedArray` is what the caller's array holds afterwards.
  - The fold is stated for any range type with start/end keys and a join (`Keys`). `Minutes` is the instance for time ranges.
- `CellPasses` (`cell_passes.dfy`): the helpers that push onto the caller's cell list and index set (`rangeNumber`, `getDirtyCellsByIndex`, `getDirtyCellsByRange`, `getNeatCells`). They are methods of a `CellSink` class holding the list and the set, and each is proved against a value-level function (`ByIndex`, `ByRange`, `Neat`). `isBlocked` is a scanning method proved equal to the predicate `Blocked`.
- `UseAppointment` (`use_appointment.dfy`): the `cells` derivation (`DeriveCells`, with the method `Appointment.Cells`) and the class `Appointment`, which holds the two selection indices and the four transitions.

Where the code behaves differently from what one might expect, the model
follows the code:

- One might expect `getTimes` with `interval <= 0` to return an empty grid. The code instead loops forever when the day is not empty. `GetTimes` therefore requires `interval > 0` unless the day is empty.
- One might expect `mergeRanges` to reorder its input but leave the range values alone. The code instead changes them: line 111 extends the end of the range object at the head of each merged run, and that object is shared with the caller's array. `MergedArraySpec` states what the array holds afterwards.
- One might expect every grid index to have exactly one cell. The code guarantees something weaker, and that is what is proved:
  - every index is claimed by an occupied, invalid or selected span, or has exactly one idle cell, never both (`DeriveCellsSlot`);
  - spans of different statuses can overlap.
- One might expect `doExpandTime` to reset a half-set selection. The code instead replaces each of the two indices separately when it is `-1`, so a half-set selection is completed with the clicked index (`Anchor`).

## Model

| member | source | states |
|---|---|---|
| TimeText.TimeToNumber | packages/mogos/utils/date-fn.ts:33-36 | `timeToNumber`: the hour field times 60 plus the minute field; its properties are `HourMinuteValue`, `TimeRoundTrip` and `CanonicalRoundTrip` |
| TimeText.NumberToTime | packages/mogos/utils/date-fn.ts:38-43 | `numberToTime`: hours and minutes padded to two digits; its properties are `NumberToTimeFormat`, `TimeRoundTrip` and `OnTheHour` |
| TimeText.ShowTime | packages/mogos/utils/date-fn.ts:74-79 | `showTime`; its properties are `SlotGrid.ShowTimeOnGrid` and `SlotGrid.ShowTimeLast` |
| TimeText.ColonIndex | packages/mogos/utils/date-fn.ts:34 | the split point of `split(':')`: the first `:`, or the end of the string when there is none; no `:` before it |
| TimeText.ParseShowDecimal | packages/mogos/utils/date-fn.ts:35-42 | `parseInt` reads back the decimal text of any natural number |
| TimeText.ParsePadStart | packages/mogos/utils/date-fn.ts:35-42 | padding digits with leading zeros does not change the number `parseInt` reads |
| TimeText.TimeRoundTrip | packages/mogos/utils/date-fn.ts:33-43 | `timeToNumber(numberToTime(m)) == m` for every natural `m` in the model's unbounded arithmetic (the program's numbers are exact only below 2^53; see "## Left out") |
| TimeText.NumberToTimeFormat | packages/mogos/utils/date-fn.ts:38-43 | below 6000 minutes `numberToTime(m)` is exactly two hour digits of `m / 60`, `:`, two minute digits of `m % 60`, so an `HH:MM` string |
| TimeText.HourMinuteValue | packages/mogos/utils/date-fn.ts:33-36 | an `HH:MM` string is worth `(10*H1 + H2) * 60 + 10*M1 + M2` minutes |
| TimeText.CanonicalRoundTrip | packages/mogos/utils/date-fn.ts:33-43 | an `HH:MM` string whose minutes are below 60 is what `numberToTime` writes for its own minute count (the other round trip) |
| TimeText.OnTheHour | packages/mogos/utils/date-fn.ts:76 | a written time ends in `"00"` exactly when its minute count is a multiple of 60 |
| TimeText.PreviewSelectedTimes | packages/mogos/utils/date-fn.ts:59-63 | the preview is non-empty exactly when there are two times and both are non-empty |
| TimeText.PreviewSplits | packages/mogos/utils/date-fn.ts:59-63 | the preview of two times is the first time, `-`, the second, and that `-` is its only dash, so it splits back into the two times |
| Sorting.SortBy | packages/mogos/utils/date-fn.ts:102 | `Array.prototype.sort` with a key comparator, as used here and for the cells at packages/mogos/hooks/use-appointment.ts:64; it keeps the length, and `SortByPermutes`, `SortBySorted` and `SortByStable` state what it promises |
| Sorting.SortByPermutes | packages/mogos/utils/date-fn.ts:102 | the sort returns a permutation of its input |
| Sorting.SortBySorted | packages/mogos/utils/date-fn.ts:102 | the sort's result is ordered by the key |
| Sorting.SortByStable | packages/mogos/utils/date-fn.ts:102 | entries with equal keys keep their relative order |
| Sorting.SortByOfSorted | packages/mogos/utils/date-fn.ts:102 | sorting an already ordered list changes nothing |
| Sorting.SortByIdempotent | packages/mogos/utils/date-fn.ts:102 | sorting twice is sorting once |
| SlotGrid.StepFrom | packages/mogos/utils/date-fn.ts:88-94 | the loop yields the entries for `start, start + interval, ...`, all below `end`; each entry reads back to its minute count; there are `ceil((end - start) / interval)` of them, none when `start >= end`; and they reach `end` |
| SlotGrid.GetTimes | packages/mogos/utils/date-fn.ts:81-95 | the grid starts at `startTime`, steps by exactly `interval`, stays below `endTime`, has `ceil((end - start) / interval)` entries (none when `start >= end`), reaches `endTime`, and is written in canonical two-digit form |
| SlotGrid.GridValues | packages/mogos/utils/date-fn.ts:90-91 | grid entry `k` is `start + k * interval` minutes |
| SlotGrid.GridIncreasing | packages/mogos/utils/date-fn.ts:90-91 | with a positive interval the grid is strictly increasing |
| SlotGrid.ShowTimeOnGrid | packages/mogos/utils/date-fn.ts:74-79 | on any grid row but the last, `showTime` shows the row's own time exactly when the slot starts on the hour, and nothing otherwise |
| SlotGrid.ShowTimeLast | packages/mogos/utils/date-fn.ts:75-78 | on a grid that reaches the day's end, the last row is labelled with the end time, and that is where the last slot ends: after it starts and at most one interval later |
| SlotGrid.FirstHit | packages/mogos/utils/date-fn.ts:127-133 | the first index whose time lies in `[start, end)`, with no such index before it; -1 exactly when there is none |
| SlotGrid.LastHit | packages/mogos/utils/date-fn.ts:127-133 | the last index whose time lies in `[start, end)`, with no such index after it; -1 exactly when there is none |
| SlotGrid.ScanWindow | packages/mogos/utils/date-fn.ts:122-134 | the loop's `startIndex` and `endIndex` are the first and the last hit |
| SlotGrid.TimeIndices | packages/mogos/utils/date-fn.ts:121-141 | the span is `(-1, -1)` exactly when no slot starts inside the range; otherwise it is ordered and in the grid, and `endIndex` is the last slot starting inside the range |
| SlotGrid.TimeIndicesStart | packages/mogos/utils/date-fn.ts:136-138 | `startIndex` is the first hit, less one exactly when that hit is not slot 0 and starts after the range does |
| SlotGrid.TimeIndicesOnGrid | packages/mogos/utils/date-fn.ts:121-141 | on an increasing grid, the span's first slot is the one containing the range's start (slot 0 when the range starts earlier), and its last slot is the last one starting before the range ends |
| SlotGrid.GetTimeIndices | packages/mogos/utils/date-fn.ts:121-141 | the method returns `TimeIndices(times, rng)` |
| RangeMerge.Absorb | packages/mogos/utils/date-fn.ts:107-115 | one fold step on the merged list; its properties are `AbsorbKeepsOrder` and `AbsorbCovers` |
| RangeMerge.FoldMerge | packages/mogos/utils/date-fn.ts:104-116 | the fold returns between one range and as many ranges as it was given |
| RangeMerge.AbsorbKeepsOrder | packages/mogos/utils/date-fn.ts:107-115 | one fold step keeps the merged list sorted by start and separated |
| RangeMerge.AbsorbCovers | packages/mogos/utils/date-fn.ts:107-115 | after one fold step the merged list covers the minutes it covered before plus those of the new range |
| RangeMerge.FoldMergeOrder | packages/mogos/utils/date-fn.ts:104-116 | folding a start-sorted list gives ranges sorted by start, each starting strictly after the previous one ends |
| RangeMerge.FoldMergeCovers | packages/mogos/utils/date-fn.ts:104-116 | folding a start-sorted list covers exactly the minutes the list covers |
| RangeMerge.FoldMergeOfSeparated | packages/mogos/utils/date-fn.ts:104-116 | folding ranges that are already separated returns them unchanged |
| RangeMerge.FoldStep | packages/mogos/utils/date-fn.ts:107-115 | one fold step on the merged list, the array and the head position, writing the extended end through at the head; its properties are `FoldRunMerges` and `FoldRunArray` |
| RangeMerge.FoldRun | packages/mogos/utils/date-fn.ts:104-116 | the fold after the first `i` entries; it keeps the merged list non-empty, the array's length, and the head before `i`; `FoldRunMerges` ties it to `FoldMerge` |
| RangeMerge.FoldRunMerges | packages/mogos/utils/date-fn.ts:104-116 | the fold over the array, with its head position and write-through, builds the same merged list as the value-level fold |
| RangeMerge.FoldRunArray | packages/mogos/utils/date-fn.ts:109-114 | after the fold, each array entry is the sorted entry, or a merged range that joining the sorted entry with gives back (one starting where the sorted entry starts); every merged range is in the array |
| RangeMerge.MinutesLawful | packages/mogos/utils/date-fn.ts:109-111 | time ranges, read through `timeToNumber` and extended as at line 111, satisfy the laws the fold relies on |
| RangeMerge.Merged | packages/mogos/utils/date-fn.ts:97-119 | the list `mergeRanges` returns; its properties are `MergedSpec`, `MergedIdempotent` and `MergedOfSorted` |
| RangeMerge.MergedSpec | packages/mogos/utils/date-fn.ts:97-119 | the result is sorted by start, each range starts strictly after the previous one ends, it covers exactly the minutes the input covers, and it has at most as many ranges as the input |
| RangeMerge.MergedIdempotent | packages/mogos/utils/date-fn.ts:97-119 | merging merged ranges returns them unchanged |
| RangeMerge.MergedOfSorted | packages/mogos/utils/date-fn.ts:102 | merging a list that was already sorted in place gives what merging the original gives |
| RangeMerge.MergedArray | packages/mogos/utils/date-fn.ts:102-114 | what the caller's array holds after `mergeRanges`; its properties are `MergedArraySpec` |
| RangeMerge.MergedArraySpec | packages/mogos/utils/date-fn.ts:102-114 | afterwards the caller's array has its old length; each entry is the sorted input's entry or, where the fold extended it, a merged range with the same start; it is still sorted by start; and it holds every merged range |
| RangeMerge.FoldInPlace | packages/mogos/utils/date-fn.ts:104-116 | the loop returns the merged list of the fold and leaves the array as the fold writes it |
| RangeMerge.MergeRanges | packages/mogos/utils/date-fn.ts:97-119 | returns `Merged` of the input (the input itself when it has at most one range) and leaves the caller's array as `MergedArray` of the input |
| CellPasses.Span | packages/mogos/utils/date-fn.ts:143 | the indices `s..e`, empty when `e < s` |
| CellPasses.ByIndex | packages/mogos/utils/date-fn.ts:145-158 | `getDirtyCellsByIndex` on the list and the index set; its property is `ByIndexConsistent`, and `CellSink.GetDirtyCellsByIndex` is proved against it |
| CellPasses.ByIndexConsistent | packages/mogos/utils/date-fn.ts:145-158 | pushing a span cell keeps every pushed cell non-idle with `rowStart = index + 1`, and keeps the index set equal to the union of the pushed spans |
| CellPasses.ByRange | packages/mogos/utils/date-fn.ts:160-165 | `getDirtyCellsByRange` on the list and the index set; its properties are `ByRangeConsistent`, `ByRangeCells` and `ByRangeClaims` |
| CellPasses.ByRangeConsistent | packages/mogos/utils/date-fn.ts:160-165 | the same invariant across a whole list of ranges |
| CellPasses.ByRangeCells | packages/mogos/utils/date-fn.ts:160-165 | the pass adds the cell of each range that hits the grid, and no other cell |
| CellPasses.ByRangeClaims | packages/mogos/utils/date-fn.ts:160-165 | the pass claims the indices of each hitting range's span, and no other index |
| CellPasses.IdleCells | packages/mogos/utils/date-fn.ts:168-176 | the idle cells `getNeatCells` pushes; its properties are `IdleCellsMembers`, `IdleCellsIn`, `IdleCellsIncreasing` and `IdleCellsCount` |
| CellPasses.Neat | packages/mogos/utils/date-fn.ts:167-178 | `getNeatCells` on the list and the index set: the idle cells appended, the set unchanged; `CellSink.GetNeatCells` is proved against it |
| CellPasses.IdleCellsMembers | packages/mogos/utils/date-fn.ts:167-178 | every cell the idle pass adds is the one-slot idle cell of an unclaimed index below the grid length |
| CellPasses.IdleCellsIn | packages/mogos/utils/date-fn.ts:167-178 | the idle cell of index `i` is added exactly when `i` is an unclaimed index below the grid length |
| CellPasses.IdleCellsIncreasing | packages/mogos/utils/date-fn.ts:168-176 | idle cells are added in strictly increasing index order |
| CellPasses.IdleCellsCount | packages/mogos/utils/date-fn.ts:167-178 | the idle cell of an unclaimed in-grid index is added exactly once, and never for any other index |
| CellPasses.Blocked | packages/mogos/utils/date-fn.ts:180-191 | some cell with index in `[lo, hi]` is Occupied or Invalid; `IsBlocked` is proved equal to it, and `BlockedWiden` and `BlockedSplit` state its properties |
| CellPasses.IsBlocked | packages/mogos/utils/date-fn.ts:180-191 | true exactly when some cell with index in `[lo, hi]` is Occupied or Invalid |
| CellPasses.BlockedWiden | packages/mogos/utils/date-fn.ts:180-191 | a window containing a blocked window is blocked |
| CellPasses.BlockedSplit | packages/mogos/utils/date-fn.ts:180-191 | `[lo, hi]` is blocked exactly when `[lo, mid]` or `[mid + 1, hi]` is |
| CellPasses.CellSink.constructor | packages/mogos/hooks/use-appointment.ts:56-57 | a fresh sink has no cells and an empty index set |
| CellPasses.CellSink.RangeNumber | packages/mogos/utils/date-fn.ts:143 | adds exactly `s..e` to the index set and leaves the cells alone |
| CellPasses.CellSink.GetDirtyCellsByIndex | packages/mogos/utils/date-fn.ts:145-158 | with either index -1 nothing changes; otherwise it appends exactly the cell `{s, s+1, e+2, status}` and adds exactly `s..e` |
| CellPasses.CellSink.GetDirtyCellsByRange | packages/mogos/utils/date-fn.ts:160-165 | the new list and set are those of `GetDirtyCellsByIndex` applied to each range's span in order |
| CellPasses.CellSink.GetNeatCells | packages/mogos/utils/date-fn.ts:167-178 | appends the idle cells of the unclaimed indices in increasing order and leaves the index set unchanged |
| UseAppointment.DeriveCells | packages/mogos/hooks/use-appointment.ts:55-67 | the `cells` list; its properties are `DeriveCellsOrder`, `DeriveCellsMember`, `DeriveCellsSlot`, `DeriveCellsShape` and `DeriveCellsDirty` |
| UseAppointment.DirtyPassConsistent | packages/mogos/hooks/use-appointment.ts:57-61 | after the occupied, invalid and selection passes the index set is exactly the union of the pushed spans |
| UseAppointment.DeriveCellsOrder | packages/mogos/hooks/use-appointment.ts:55-67 | the cells are sorted by index, are a permutation of the pushed cells, and keep push order (occupied, invalid, selected, idle) among equal indices |
| UseAppointment.DeriveCellsMember | packages/mogos/hooks/use-appointment.ts:59-64 | a cell is in the list exactly when one of the passes pushed it |
| UseAppointment.ClaimedIsDirty | packages/mogos/hooks/use-appointment.ts:57-62 | an index is in the index set exactly when some listed cell's span claims it |
| UseAppointment.DeriveCellsSlot | packages/mogos/hooks/use-appointment.ts:57-62 | completeness: each grid index is claimed by an occupied, invalid or selected span, or has exactly one idle cell, never both |
| UseAppointment.DeriveCellsShape | packages/mogos/hooks/use-appointment.ts:55-67 | every cell starts one row after its index and is never Expired; every idle cell is the one-slot cell of an in-grid index no other cell claims |
| UseAppointment.DirtyStatus | packages/mogos/hooks/use-appointment.ts:59-61 | the non-idle passes push only Occupied, Invalid and Selected cells |
| UseAppointment.DirtyCells | packages/mogos/hooks/use-appointment.ts:59-61 | the non-idle passes push exactly the cell of each hitting occupied range, of each hitting invalid range, and the selection's cell when both indices are set |
| UseAppointment.DeriveCellsDirty | packages/mogos/hooks/use-appointment.ts:55-67 | the listed non-idle cells are exactly those cells |
| UseAppointment.Anchor | packages/mogos/hooks/use-appointment.ts:96-97 | each selection index, replaced by the clicked index when it is -1; used by `Expand` and its lemmas |
| UseAppointment.Expand | packages/mogos/hooks/use-appointment.ts:96-103 | with no selection the result is the clicked index alone; a click strictly inside the selection keeps it |
| UseAppointment.ExpandHull | packages/mogos/hooks/use-appointment.ts:99-103 | from an ordered selection the result is ordered and holds the clicked index; it is that index alone or the smallest span holding the selection and the index, and it is that span whenever the span is not blocked |
| UseAppointment.ExpandClear | packages/mogos/hooks/use-appointment.ts:99-103 | growing an unblocked selection gives an unblocked selection unless it restarts at the clicked index |
| UseAppointment.ExpandInGrid | packages/mogos/hooks/use-appointment.ts:96-103 | a click on a grid index keeps an in-grid selection ordered and inside the grid |
| UseAppointment.At | packages/mogos/hooks/use-appointment.ts:84-85 | `rawTimes[k]`, with a read off the grid as the empty string; used by `SelectedTimesOnGrid` |
| UseAppointment.SelectedTimes | packages/mogos/hooks/use-appointment.ts:82-90 | the pair `updateSelectedTime` returns; its property is `SelectedTimesOnGrid` |
| UseAppointment.SelectedTimesOnGrid | packages/mogos/hooks/use-appointment.ts:82-90 | on a grid, an in-grid selection shows as slot `s`'s time and the time slot `e` ends (the next slot's start, or the day's end for the last slot); the start comes first, the end is at most one interval after slot `e` starts, and the preview is non-empty |
| UseAppointment.Appointment.constructor | packages/mogos/hooks/use-appointment.ts:30-47 | builds the grid with all `GetTimes` guarantees; the occupied ranges are the merged occupied input; the invalid ranges are the merged invalid input in View mode and the supplied inferred ranges in Edit mode; the callers' arrays are left as `mergeRanges` leaves them, including when both are the same array; nothing is selected |
| UseAppointment.Appointment.Cells | packages/mogos/hooks/use-appointment.ts:55-67 | the pipeline on a fresh list and set returns `DeriveCells` of the current state |
| UseAppointment.Appointment.UpdateSelectedIndex | packages/mogos/hooks/use-appointment.ts:77-80 | overwrites both indices, and nothing else changes |
| UseAppointment.Appointment.UpdateSelectedTime | packages/mogos/hooks/use-appointment.ts:82-90 | stores both indices and returns `[times[s], endTime]` when `e` is the last index, else `[times[s], times[e + 1]]` |
| UseAppointment.Appointment.DoExpandTime | packages/mogos/hooks/use-appointment.ts:92-106 | the new selection is `Expand` of the old one at the clicked index, over the cells derived from the old state, and the result is that selection's times |
| UseAppointment.Appointment.DoNarrowTime | packages/mogos/hooks/use-appointment.ts:108-112 | selects the single index `cell.index + offset` with no blocking check and returns its times |

## Left out

- `genDates`, `getDates`, `getDatesByWeek`, `isBefore`, `isAfter`, `isSame` and `isDisabled`: calendar dates built on the dayjs library, outside the time grid.
- `isPast` and `getInvalidRanges` are not part of this model. They read the wall clock, and their source is not available. In Edit mode the invalid ranges are therefore a constructor parameter (`editInvalid`).
- `isMute`: it depends on `isPast` and the wall clock.
- `itemHeight` and `itemLineHeight`: presentational strings, one built with a floating-point multiply.
- `isSelected` and `selectedTimeDisplay`: they read the component's props, not the selection state. `PreviewSelectedTimes` covers the display logic.
- Vue reactivity (`computed`, `ref`, `unref`): each recomputation is an explicit call. `Appointment.Cells` is the `cells` computed value at the moment it is read.
- Malformed time strings, where `parseInt` yields `NaN`, and the empty `HourAndMinute` `''`: excluded by the `Time` subtype.
- Time strings that `timeToNumber` reads without `NaN` but that are not digits, one colon, digits: extra `:` fields (`"12:30:00"` reads as 750, the third field ignored), a sign (`"+9:00"`, and `"-1:00"`, which reads as -60, a negative count the model's `nat` minutes cannot hold), leading whitespace (`" 9:00"`), and trailing non-digits (`"9:00am"`). The `Time` subtype excludes them all, so the model says nothing about grids or ranges written that way.
- `Array.isArray` in `previewSelectedTimes`: the argument is always a sequence.
- Reading `rawTimes[k]` off the end of the grid (JavaScript's `undefined`) is modelled as the empty string, which the display treats the same way.
- Number width: minute counts and indices are unbounded integers. The model assumes integer minute counts well below 2^53, where JavaScript numbers are exact; a day is at most 1440 minutes. Beyond that the program differs from the model: numbers lose precision above 2^53, and from 1e21 `numberToTime` writes exponent notation, which `parseInt` reads back wrongly (`parseInt("1e+21")` is 1).
- TimeText.TimeRoundTrip: holds for every natural number in the model's unbounded arithmetic; in the program it holds only for minute counts in the exact range above.
- SlotGrid.GetTimes: a non-integer `interval` (the prop is a JavaScript `number`) is not modelled; `interval` is an `int`.
- `Array.prototype.sort` is modelled as a stable sort, which the language has required since ES2019.
- Object identity in `mergeRanges` beyond the head write-through. The model does not cover the same range object appearing twice in the input, nor range objects shared between the occupied and invalid inputs.
- SlotGrid.GetTimes: requires `interval > 0` whenever the day is not empty, because the source's loop never ends otherwise.
