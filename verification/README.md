# Airtable timeline: lanes and calendar geometry in Dafny

This project models the two computations at the heart of the timeline view.

- **Greedy lane assignment** (`assignLanes`). A copy of the items is sorted by start date with a stable sort. Each item then goes into the first lane whose last item ends strictly before the item starts, or into a new lane.
- **Calendar geometry** of `Timeline` and `TimelineHeader`:
  - the range of days the items span (`dateDiffInDays`, the min/max scan, `totalDays`);
  - the month map, built day by day with `setDate(getDate() + 1)` and turned into `{ name, width, dayCount }` columns;
  - the box of every item and the grid lines;
  - the header's own recount of the months;
  - the `prevMonthDays` prefix sums and the day-of-month labels of the day row, shown when the range has at most 90 days.

Dates are integer day ordinals: whole days since 1970-01-01. For every year but 0 to 99, `Date.UTC(year, month, day)` divided by the length of a day gives that ordinal. `Date.UTC` reads the years 0 to 99 as 1900 to 1999, and `Timeline.UtcDay` models that reading, so `dateDiffInDays` is a true day count only outside those years.

- Module `Calendar` converts ordinals to proleptic Gregorian dates and back (`CivilFromDays`, `DaysFromCivil`, proved inverse).
- `SetDate` is `Date.prototype.setDate`, with overflow into later months.
- Percentages are exact rationals (`real`).

Modules:

- `Calendar`: dates, month lengths, `setDate`, the month key of a day.
- `Months`: the month-counting loop over a `Map`, and its specification `Group`, the runs of equal month keys over the days of a range.
- `MonthColumns`: the `{ name, width, dayCount }` columns, their labels, and the sums of their widths and day counts.
- `Lanes`: the stable sort, first fit and the imperative `assignLanes`.
- `LaneOptimality`: first fit uses the fewest lanes possible.
- `Timeline`: `dateDiffInDays`, the memoised timeline data, item boxes and grid lines.
- `TimelineHeader`: `showDays`, the header's month columns, `prevMonthDays`, `firstDayOfMonth` and the day labels.

## Model

| member | source | states |
|---|---|---|
| Lanes.SortByStart | src/lib/assignLanes.ts:8-10 | the sorted copy is ordered by start and is a permutation of the items |
| Lanes.InsertByStart | src/lib/assignLanes.ts:8-10 | one insertion step of the sort adds exactly the item and keeps a sorted list sorted |
| Lanes.InsertByStartStable | src/lib/assignLanes.ts:8-10 | an insertion puts the new item after every earlier item with the same start |
| Lanes.SortByStartStable | src/lib/assignLanes.ts:8-10 | the sort is stable: for every start day, the items with that start keep their input order |
| Lanes.FirstFit | src/lib/assignLanes.ts:16-23 | the chosen lane is the first whose last item ends strictly before the item starts; every earlier lane ends on or after the start; `|lanes|` means no lane fits |
| Lanes.FirstFitUnique | src/lib/assignLanes.ts:16-23 | any index with the first-fit property is the one `FirstFit` returns |
| Lanes.PlaceItem | src/lib/assignLanes.ts:15-27 | the inner scan with `break` pushes onto the first fitting lane, or else opens a new lane holding only the item |
| Lanes.Pack | src/lib/assignLanes.ts:12-28 | first-fit lanes are non-empty, are no more than the items, and no lane holds two overlapping items |
| Lanes.PackStep | src/lib/assignLanes.ts:14-28 | packing one more item places it into the lanes of the earlier items |
| Lanes.AssignLanes | src/lib/assignLanes.ts:7-31 | the loop gives the first-fit packing of the sorted copy: non-empty, non-overlapping lanes, no more lanes than items (so none for no items), and the lanes hold exactly the input items |
| Lanes.PackPartition | src/lib/assignLanes.ts:14-28 | the lanes partition the input: as multisets their items are the input, and the lane sizes add up to its length (so, by the helper `FlattenContains`, every item of a lane is an input item) |
| Lanes.PackLanesAreSubsequences | src/lib/assignLanes.ts:14-28 | every lane is a subsequence of the sorted items |
| Lanes.AssignedLanesSorted | src/lib/assignLanes.ts:8-19 | every lane is in non-decreasing start order |
| Lanes.SortByStartOfSorted | src/lib/assignLanes.ts:8-10 | sorting a list that is already in start order returns it unchanged |
| Lanes.AssignLanesOfSortedCopy | src/lib/assignLanes.ts:7-31 | assigning lanes to the sorted copy of the items gives the same lanes as assigning them to the items |
| Lanes.SortedDeterminedByStarts | src/lib/assignLanes.ts:8-10 | two lists in start order with the same items of every start day, in the same order, are equal |
| Lanes.SameStartsSameLanes | src/lib/assignLanes.ts:7-31 | two inputs with the same items of every start day, in the same order, get the same lanes, however the days are interleaved |
| Lanes.AssignedLanesKeepInputOrder | src/lib/assignLanes.ts:8-10 | within a lane, items with the same start keep their relative input order |
| LaneOptimality.NoOverlapIsPairwiseDisjoint | src/lib/assignLanes.ts:18-19 | in a lane of valid items, the strict end-before-start test between neighbours makes every two items day-disjoint |
| LaneOptimality.PackCommonDay | src/lib/assignLanes.ts:16-27 | for sorted valid items there is one day that every first-fit lane covers with some item |
| LaneOptimality.LanesCoverCountAtMost | src/lib/assignLanes.ts:14-28 | lanes of pairwise day-disjoint items cover any day at most once per lane |
| LaneOptimality.FirstFitIsOptimal | src/lib/assignLanes.ts:7-31 | every other split of the same items into lanes of day-disjoint items has at least as many lanes |
| Calendar.CivilFromDays | src/components/Timeline.tsx:9-10 | the date of a day ordinal is a valid calendar date |
| Calendar.CivilFromDaysInverse | src/components/Timeline.tsx:9-10 | the ordinal of the year, month and day that the accessors report for a day is that day; `Date.UTC` computes this ordinal for every year but 0 to 99 (`Timeline.UtcDay`) |
| Calendar.CivilFromDaysOfCivil | src/components/Timeline.tsx:9-10 | every valid date is the date of its own ordinal |
| Calendar.DaysFromCivilInjective | src/components/Timeline.tsx:9-10 | two valid dates with the same ordinal are the same date |
| Calendar.NextDayOrdinal | src/components/Timeline.tsx:44 | the calendar day after a date has the next ordinal |
| Calendar.CivilFromDaysNext | src/components/Timeline.tsx:44 | the date of the next ordinal is the calendar day after |
| Calendar.SetDate | src/components/TimelineHeader.tsx:68 | `setDate(k)` gives the day `k - 1` days after the first of the month, rolling over into later (or earlier) months when `k` is beyond the month |
| Calendar.SetDateNext | src/components/Timeline.tsx:44 | `setDate(getDate() + 1)` moves to the next day, also across month and year ends |
| Calendar.SetDateInMonth | src/components/TimelineHeader.tsx:68 | `setDate(k)` with a day within the month gives day `k` of the same month and year |
| Calendar.KeyStep | src/components/Timeline.tsx:42-44 | from one day to the next, the month key stays and the day of the month grows by one, or the key moves on and the day is the 1st |
| Timeline.UtcDay | src/components/Timeline.tsx:9-10 | the day `Date.UTC` sees for a day is that day whenever its year is not in 0 to 99 |
| Timeline.UtcDayOfEarlyYear | src/components/Timeline.tsx:9-10 | a day of the years 0 to 99 is seen as a day of 1900 to 1999 |
| Timeline.UtcMidnight | src/components/Timeline.tsx:9-10 | the `Date.UTC` value is a whole number of days in milliseconds, `t * 86400000` outside the years 0 to 99 |
| Timeline.DateDiffInDays | src/components/Timeline.tsx:7-12 | the difference is that of the days `Date.UTC` sees, so 0 for equal dates, antisymmetric and additive; for two days outside the years 0 to 99 it is `b - a` |
| Timeline.DateDiffAcrossYear100 | src/components/Timeline.tsx:7-12 | from 0099-12-31 to the next day, 0100-01-01, the difference is -693959 and not 1 |
| Timeline.DateDiffLeapDayOfYear0 | src/components/Timeline.tsx:7-12 | from 0000-02-29 to the next day, 0000-03-01, the difference is 0: both are read as 1900-03-01 |
| Timeline.MinStart | src/components/Timeline.tsx:27-35 | the earliest start is at or before every start and is the start of some item |
| Timeline.MaxEnd | src/components/Timeline.tsx:27-35 | the latest end is at or after every end and is the end of some item |
| Timeline.DateRange | src/components/Timeline.tsx:27-35 | the scan that starts from the first item and replaces a bound only on a strict improvement yields the earliest start and the latest end |
| Timeline.BuildTimeline | src/components/Timeline.tsx:20-64 | the memoised data is `TimelineOf`: the empty sentinel for no items, otherwise the first-fit lanes, the range from the earliest start to the latest end as `dateDiffInDays` counts it, and the month columns of that range |
| Timeline.TimelineMonths | src/components/Timeline.tsx:39-56 | the month map and its entries give the columns `Columns(startDate, days)` |
| Timeline.TimelineRange | src/components/Timeline.tsx:27-37 | the range starts at the earliest start; when neither end lies in the years 0 to 99 it holds `maxEnd - minStart + 1` days, at least 1 when some item ends no earlier than it starts |
| Timeline.TimelineColumns | src/components/Timeline.tsx:39-56 | a timeline of at least one day has between 1 and `totalDays` columns, whose day counts add up to `totalDays` and whose widths add up to 100 |
| Timeline.ItemBox | src/components/Timeline.tsx:105-109 | outside the years 0 to 99 the offset is the days from the range's start to the item's start and the duration the item's days, both ends included; left and width are those days' shares of the range in percent |
| Timeline.ItemBoxInside | src/components/Timeline.tsx:101-109 | an item inside the range, with no date in the years 0 to 99, has `offset = start - startDate >= 0` and `duration = end - start + 1 >= 1`, so one day for `start == end`, with `offset + duration <= totalDays`; its box lies within 0 to 100 percent and has positive width |
| Timeline.TimelineItemsInside | src/components/Timeline.tsx:96-109 | when no item has a date in the years 0 to 99, every item of every lane is an input item and is drawn inside the timeline |
| Timeline.GridLines | src/components/Timeline.tsx:70-93 | there are `months.length - 1` lines, none for no months, and line `k` stands at the sum of the widths of columns `0..k` |
| Timeline.GridLineAtMonthStart | src/components/Timeline.tsx:82-93 | the line before month `j` stands at the share of the days before it, strictly inside the timeline, on a day that is the 1st of its month |
| Months.CountMonths | src/components/Timeline.tsx:39-47 | the loop over the `Map` yields the entries `Group(startDate, days)`: the runs of equal month keys of the days of the range, in the order the months are met |
| Months.TallyStep | src/components/Timeline.tsx:43 | `monthMap.set(key, (get(key) or 0) + 1)` appends a new key or grows the last count, keeping the map equal to the runs |
| Months.TalliedEntries | src/components/Timeline.tsx:47 | `Array.from(monthMap.entries())` (`Entries`, each key with its count in insertion order) of a map that holds the runs are the runs |
| Months.GroupBasics | src/components/Timeline.tsx:39-45 | the months of a range are none exactly when it has no days; their counts are positive and add up to the number of days; the last month is that of the last day |
| Months.GroupIncreasing | src/components/Timeline.tsx:39-47 | the months come in strictly chronological order, so their keys are distinct |
| Months.GroupSegment | src/components/Timeline.tsx:39-45 | month `j` covers the contiguous days from position `DaysBefore(g, j)` on, all with its key and with consecutive days of the month |
| Months.GroupMonthStart | src/components/Timeline.tsx:39-45 | every month but the first begins on the 1st of the month |
| Months.DayCountBounds | src/components/Timeline.tsx:39-47 | each day count is between 1 and the length of its month, and exactly that length for every month but the first and the last |
| Months.RunsTotal | src/components/Timeline.tsx:41-43 | the run lengths add up to the number of days counted |
| Months.RunsAdjacentDiffer | src/components/Timeline.tsx:41-43 | neighbouring runs have different keys |
| MonthColumns.MonthNameOfDate | src/components/Timeline.tsx:47-53 | `MonthName` labels no month of a year from 0 on "Invalid Date" (a negative year gets exactly that label) |
| MonthColumns.MonthNameParts | src/components/Timeline.tsx:47-53 | the `MonthName` label of a month of a year from 0 on reads back as the English month name, a space and digits that spell the full year, years 0 to 99 being 1900 to 1999 |
| MonthColumns.Decimal | src/components/Timeline.tsx:50-53 | the year is written as a non-empty string of decimal digits |
| MonthColumns.DecimalValue | src/components/Timeline.tsx:50-53 | the digits `Decimal` writes spell the number: their value is `n` |
| MonthColumns.MonthListSums | src/components/Timeline.tsx:47-56 | the columns that `MonthList` makes, one per entry, have day counts that add up to the days of the entries, and their widths to those days' share |
| MonthColumns.MonthListWidthPrefix | src/components/Timeline.tsx:82-93 | the widths of the first `j` columns add up to the share of the days of the first `j` months |
| MonthColumns.ColumnsFillTimeline | src/components/Timeline.tsx:47-56 | the columns of a range of `n > 0` days number between 1 and `n`, their day counts add up to `n` and their widths to 100 |
| MonthColumns.ColumnShape | src/components/Timeline.tsx:47-56 | `MonthList` makes one column per month, and column `j` carries the label and the day count of month `j` of the range |
| MonthColumns.ColumnWidth | src/components/Timeline.tsx:54 | column `j` is `dayCount / totalDays * 100` wide, more than 0 and at most 100 |
| MonthColumns.PrefixDayCounts | src/components/TimelineHeader.tsx:65-67 | the `reduce` over the first `j` columns is the number of days of the range before month `j` |
| MonthColumns.MonthNameInjective | src/components/TimelineHeader.tsx:73 | from year 100 on, different months have different `MonthName` labels, so `month.name` is a unique key |
| MonthColumns.MonthNameOfEarlyYear | src/components/Timeline.tsx:48-53 | `new Date(year, month)` reads years 0 to 99 as 1900 to 1999, so `MonthName` labels year 50 like 1950 |
| TimelineHeader.HeaderMonths | src/components/TimelineHeader.tsx:19-44 | the header recounts the same columns that the timeline computes for the same start date and number of days |
| TimelineHeader.FirstDayAfterPrevious | src/components/TimelineHeader.tsx:63-69 | `firstDayOfMonth` is the start date moved on by `prevMonthDays` days |
| TimelineHeader.FirstDayOfColumn | src/components/TimelineHeader.tsx:63-69 | on the header's columns, column `j` starts on the first day of month `j` of the range |
| TimelineHeader.LabelsFromFirst | src/components/TimelineHeader.tsx:77-83 | column `j` has `dayCount` labels that count on by one from `firstDayOfMonth.getDate()` |
| TimelineHeader.RunDaysInMonth | src/components/TimelineHeader.tsx:20-27 | the days of month `j` of the range all have days of the month between 1 and that month's length |
| TimelineHeader.LabelsShowDays | src/components/TimelineHeader.tsx:62-84 | the labels of column `j` are the days of the month of the days of month `j`, in order |
| TimelineHeader.DayLabelsAreDates | src/components/TimelineHeader.tsx:62-84 | on the header's own columns, the labels of column `j` are the true days of the month of that column's days |
| TimelineHeader.LabelsWithinMonth | src/components/TimelineHeader.tsx:77-83 | no label is below 1 or above the length of its month |
| TimelineHeader.DayLabelsInMonth | src/components/TimelineHeader.tsx:77-83 | on the header's own columns, every label lies between 1 and the length of its month |
| TimelineHeader.LabelsFromOne | src/components/TimelineHeader.tsx:63-83 | from the second column on, the labels are 1, 2, ..., `dayCount` |
| TimelineHeader.LaterMonthLabels | src/components/TimelineHeader.tsx:63-83 | on the header's own columns, every column but the first is labelled 1, 2, ..., `dayCount` |
| TimelineHeader.RowShows | src/components/TimelineHeader.tsx:62-84 | when each column shows the days after the earlier columns, the first `j` columns together show the first `prevMonthDays` days |
| TimelineHeader.RowShowsRange | src/components/TimelineHeader.tsx:60-88 | the whole day row is the days of the month of the range, one cell per day, in order |
| TimelineHeader.DayRowShowsRange | src/components/TimelineHeader.tsx:14-17 | the day row has exactly `totalDays` cells labelled with the days of the range; it is shown exactly when `totalDays <= 90` |

## Left out

- Parsing of ISO date strings, `Invalid Date`, time of day, time zones and daylight saving. Every date is a whole day ordinal. Local and UTC accessors are taken to agree.
- `new Date()` for the empty timeline is read from the clock. It becomes the parameter `today` of `Timeline.BuildTimeline`.
- IEEE floating point. Widths and left edges are exact rationals, so rounding in `(dayCount / days) * 100` and in the running `accumulatedLeft` is not modelled.
- `toLocaleString` is replaced by a fixed English month table and a decimal year. Locale data, eras and other calendars are not modelled.
- Timeline.DateDiffInDays: is a true day count only when neither date lies in the years 0 to 99. `Date.UTC` reads those years as 1900 to 1999, so the count jumps at 0100-01-01 and loses a day at 29 February of the year 0, which 1900 does not have (`Timeline.DateDiffAcrossYear100`, `Timeline.DateDiffLeapDayOfYear0`).
- Calendar.CivilFromDaysInverse: inverts the calendar, not `Date.UTC`. The two agree for every year but 0 to 99, as `Timeline.UtcDay` states.
- Timeline.TimelineRange: states the length `maxEnd - minStart + 1` only when neither end lies in the years 0 to 99, for the reason given for `Timeline.DateDiffInDays`.
- Timeline.ItemBoxInside: requires that no date of the item or the range lies in the years 0 to 99. There an offset can be negative or the box can leave the timeline.
- Timeline.TimelineItemsInside: requires that no item has a date in the years 0 to 99, for the reason given for `Timeline.ItemBoxInside`.
- Timeline.ItemBox: requires `totalDays != 0`. JavaScript divides by zero there and gets `Infinity` or `NaN`. That can happen when items end before they start, or when the reading of the years 0 to 99 as 1900 to 1999 puts the range's end before its start.
- MonthColumns.MonthNameInjective: holds only from year 100 on. Years 0 to 99 share labels with 1900 to 1999, as `MonthColumns.MonthNameOfEarlyYear` shows. Negative years all get the label "Invalid Date".
- React rendering is not modelled: `useMemo` caching, JSX, the CSS classes, React keys other than the month label, and the "Nenhum item para exibir." message.
- Cell widths (`flexBasis`) and the empty-items early return are not modelled beyond the data they read.
- src/components/TimelineItem.tsx is not part of this model. It holds editing UI state, focus handling and DOM measurements.
- src/App.tsx and src/data/timelineItems.ts are not part of this model. They are page composition and sample data.
- `Array.prototype.sort` is engine code. It is modelled by a stable insertion sort that has the same result: sorted, a permutation, and stable.
- Mutation of the input array cannot be expressed here: items are values and the lanes are built from a sorted copy.
