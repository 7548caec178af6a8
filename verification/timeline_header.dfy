/** The header of the timeline (`TimelineHeader`): a row of month cells and,
    for ranges of at most 90 days, a row of day cells labelled with their day
    of the month.

    The header does not use the month list the timeline passes it: it counts
    the months of the range again from `startDate` and `totalDays`, with the
    same loop as the timeline. */
module TimelineHeader {
  import opened Calendar
  import opened Months
  import opened MonthColumns

  /** The longest range, in days, whose day row is shown. */
  const DAY_VIEW_THRESHOLD: int := 90

  predicate ShowDays(totalDays: int) {
    totalDays <= DAY_VIEW_THRESHOLD
  }

  /** The header's memoised month columns: the month map of the range,
      counted day by day, turned into labelled columns. */
  method HeaderMonths(startDate: int, totalDays: int) returns (months: seq<MonthInfo>)
    ensures months == Columns(startDate, totalDays)
  {
    var entries := CountMonths(startDate, totalDays);
    GroupKeysValid(startDate, totalDays);
    months := MonthList(entries, totalDays);
  }

  /** The days of the columns before column `monthIndex`: the sum over
      `months.slice(0, monthIndex)`. */
  function PrevMonthDays(months: seq<MonthInfo>, monthIndex: nat): int
    requires monthIndex <= |months|
  {
    SumDayCounts(months[..monthIndex])
  }

  /** The first day shown under column `monthIndex`: the start date for the
      first column, otherwise the start date with its day of the month moved
      on by the days of the earlier columns, as `setDate` does it. */
  function FirstDayOfMonth(startDate: int, months: seq<MonthInfo>, monthIndex: nat): int
    requires monthIndex <= |months|
  {
    if monthIndex > 0 then SetDate(startDate, CivilFromDays(startDate).day + PrevMonthDays(months, monthIndex))
    else startDate
  }

  /** The labels of the day cells of column `monthIndex`: the day of the
      month of its first day, plus the index of the cell. */
  function DayLabels(startDate: int, months: seq<MonthInfo>, monthIndex: nat): seq<int>
    requires monthIndex < |months|
  {
    var first := CivilFromDays(FirstDayOfMonth(startDate, months, monthIndex)).day;
    CountFrom(first, if months[monthIndex].dayCount < 0 then 0 else months[monthIndex].dayCount)
  }

  /** `count` numbers counting on from `first`. */
  function CountFrom(first: int, count: nat): seq<int> {
    seq(count, i => first + i)
  }

  /** The labels of the day row, column after column, up to column `j`. */
  function DayRow(startDate: int, months: seq<MonthInfo>, j: nat): seq<int>
    requires j <= |months|
  {
    if j == 0 then [] else DayRow(startDate, months, j - 1) + DayLabels(startDate, months, j - 1)
  }

  /** A column starts on the day that follows the days of the columns before
      it. */
  lemma FirstDayAfterPrevious(startDate: int, months: seq<MonthInfo>, j: nat)
    requires j <= |months|
    ensures FirstDayOfMonth(startDate, months, j) == startDate + PrevMonthDays(months, j)
  {
    assert months[..0] == [];
  }

  /** Column `j` of a month list that holds the month counts of a range
      starts on the day that follows the days of the earlier months. */
  lemma FirstDayOfColumn(start: int, n: nat, months: seq<MonthInfo>, j: nat)
    requires HoldsCounts(months, Group(start, n)) && j < |months|
    ensures FirstDayOfMonth(start, months, j) == start + DaysBefore(Group(start, n), j)
  {
    FirstDayAfterPrevious(start, months, j);
    PrefixDayCounts(months, Group(start, n), j);
  }

  /** Month `j` of a range covers the `dayCount` days from position
      `DaysBefore(g, j)` of the range on, and their days of the month count
      up by one from that of the first. */
  lemma RunDayNumbers(start: int, n: nat, j: nat)
    requires j < |Group(start, n)|
    ensures 0 <= DaysBefore(Group(start, n), j)
    ensures 1 <= Group(start, n)[j].dayCount
    ensures DaysBefore(Group(start, n), j) + Group(start, n)[j].dayCount <= n
    ensures forall i :: DaysBefore(Group(start, n), j) <= i < DaysBefore(Group(start, n), j) + Group(start, n)[j].dayCount ==>
              DayNumbers(start, n)[i] == DayNumbers(start, n)[DaysBefore(Group(start, n), j)] + (i - DaysBefore(Group(start, n), j))
    ensures forall i :: DaysBefore(Group(start, n), j) <= i < DaysBefore(Group(start, n), j) + Group(start, n)[j].dayCount ==>
              DayKeys(start, n)[i] == Group(start, n)[j].key
  {
    var g := Group(start, n);
    var p, c := DaysBefore(g, j), g[j].dayCount;
    assert g == Runs(DayKeys(start, n));
    GroupEntryBounds(start, n, j);
    RangeRun(start, n, j, c - 1);
    forall i | p <= i < p + c
      ensures DayNumbers(start, n)[i] == DayNumbers(start, n)[p] + (i - p)
      ensures DayKeys(start, n)[i] == g[j].key
    {
      RangeRun(start, n, j, i - p);
      assert p + (i - p) == i;
    }
  }

  /** The days of month `j` of a range all lie in that month: their days of
      the month run from 1 at the least to the month's length at the most. */
  lemma RunDaysInMonth(start: int, n: nat, j: nat)
    requires j < |Group(start, n)|
    ensures 0 <= DaysBefore(Group(start, n), j)
    ensures DaysBefore(Group(start, n), j) + Group(start, n)[j].dayCount <= n
    ensures 0 <= Group(start, n)[j].key.month < 12
    ensures forall i :: DaysBefore(Group(start, n), j) <= i < DaysBefore(Group(start, n), j) + Group(start, n)[j].dayCount ==>
              1 <= DayNumbers(start, n)[i] <= DaysInMonth(Group(start, n)[j].key.year, Group(start, n)[j].key.month)
  {
    var g := Group(start, n);
    var p, c := DaysBefore(g, j), g[j].dayCount;
    RunDayNumbers(start, n, j);
    DayCountBounds(start, n, j);
    forall i | p <= i < p + c
      ensures 1 <= DayNumbers(start, n)[i] <= DaysInMonth(g[j].key.year, g[j].key.month)
    {
      RangeAt(start, n, i);
    }
  }

  /** `s` counts on by one from `x`. */
  predicate CountsOn(s: seq<int>, x: int) {
    forall d :: 0 <= d < |s| ==> s[d] == x + d
  }

  /** The `c` entries of `dn` from position `p` on exist and count on by one
      from `x`. */
  predicate StretchCountsOn(dn: seq<int>, p: int, c: int, x: int) {
    0 <= p && p + c <= |dn| && forall i :: p <= i < p + c ==> dn[i] == x + (i - p)
  }

  /** `s` repeats, in order, the entries of `dn` from position `p` on. */
  predicate ShowsFrom(s: seq<int>, dn: seq<int>, p: int) {
    0 <= p && p + |s| <= |dn| && forall d :: 0 <= d < |s| ==> s[d] == dn[p + d]
  }

  /** Every entry of `s` lies between `lo` and `hi`. */
  predicate Within(s: seq<int>, lo: int, hi: int) {
    forall d :: 0 <= d < |s| ==> lo <= s[d] <= hi
  }

  /** Column `j` has one label per day of its month, counting on from the
      day of the month of its first day. */
  lemma LabelsFromFirst(startDate: int, months: seq<MonthInfo>, j: nat, first: int)
    requires j < |months| && 0 <= months[j].dayCount
    requires FirstDayOfMonth(startDate, months, j) == first
    ensures |DayLabels(startDate, months, j)| == months[j].dayCount
    ensures CountsOn(DayLabels(startDate, months, j), CivilFromDays(first).day)
  {
  }

  /** The days of month `j` of a range have, in order, the days of the
      month that count on from that of the month's first day in the range. */
  lemma RunCountsOn(start: int, n: nat, j: nat)
    requires j < |Group(start, n)|
    ensures 0 <= DaysBefore(Group(start, n), j) < n
    ensures StretchCountsOn(DayNumbers(start, n), DaysBefore(Group(start, n), j), Group(start, n)[j].dayCount,
                            DayNumbers(start, n)[DaysBefore(Group(start, n), j)])
  {
    RunDayNumbers(start, n, j);
  }

  /** Numbers that count on from `x` repeat a stretch of `dn` of the same
      length that counts on from `x` too. */
  lemma CountOnMatches(labels: seq<int>, dn: seq<int>, p: int, x: int)
    requires CountsOn(labels, x) && StretchCountsOn(dn, p, |labels|, x)
    ensures ShowsFrom(labels, dn, p)
  {
    forall d | 0 <= d < |labels|
      ensures labels[d] == dn[p + d]
    {
      assert p <= p + d < p + |labels|;
      assert (p + d) - p == d;
    }
  }

  /** The cells of column `j` of a month list that holds the month counts
      of a range stand for the days of month `j`, which come after the days
      of the earlier months, and are labelled with their true days of the
      month. */
  lemma LabelsShowDays(start: int, n: nat, months: seq<MonthInfo>, j: nat)
    requires HoldsCounts(months, Group(start, n)) && j < |months|
    ensures |DayLabels(start, months, j)| == Group(start, n)[j].dayCount
    ensures ShowsFrom(DayLabels(start, months, j), DayNumbers(start, n), DaysBefore(Group(start, n), j))
  {
    var labels, dn := DayLabels(start, months, j), DayNumbers(start, n);
    var p := DaysBefore(Group(start, n), j);
    var first := start + p;
    GroupEntryBounds(start, n, j);
    FirstDayOfColumn(start, n, months, j);
    LabelsFromFirst(start, months, j, first);
    RunCountsOn(start, n, j);
    RangeAt(start, n, p);
    CountOnMatches(labels, dn, p, dn[p]);
  }

  /** The cells of column `j` of a range stand for the days of month `j`,
      which come after the days of the earlier months, and are labelled
      with their true days of the month. */
  lemma DayLabelsAreDates(start: int, n: nat, j: nat)
    requires j < |Group(start, n)|
    ensures |Columns(start, n)| == |Group(start, n)|
    ensures |DayLabels(start, Columns(start, n), j)| == Group(start, n)[j].dayCount
    ensures ShowsFrom(DayLabels(start, Columns(start, n), j), DayNumbers(start, n), DaysBefore(Group(start, n), j))
  {
    var months := Columns(start, n);
    ColumnsHoldCounts(start, n);
    LabelsShowDays(start, n, months, j);
  }

  /** Numbers that repeat a stretch of `dn` keep the bounds that hold along
      that stretch. */
  lemma ShiftedBounds(labels: seq<int>, dn: seq<int>, p: int, lo: int, hi: int)
    requires ShowsFrom(labels, dn, p)
    requires forall i :: p <= i < p + |labels| ==> lo <= dn[i] <= hi
    ensures Within(labels, lo, hi)
  {
    forall d | 0 <= d < |labels|
      ensures lo <= labels[d] <= hi
    {
      assert p <= p + d < p + |labels|;
    }
  }

  /** The labels of column `j` of a month list that holds the month counts
      of a range run from 1 at the least to the length of the month at the
      most. */
  lemma LabelsWithinMonth(start: int, n: nat, months: seq<MonthInfo>, j: nat)
    requires HoldsCounts(months, Group(start, n)) && j < |months|
    ensures 0 <= Group(start, n)[j].key.month < 12
    ensures Within(DayLabels(start, months, j), 1, DaysInMonth(Group(start, n)[j].key.year, Group(start, n)[j].key.month))
  {
    var g := Group(start, n);
    var labels, dn := DayLabels(start, months, j), DayNumbers(start, n);
    LabelsShowDays(start, n, months, j);
    RunDaysInMonth(start, n, j);
    ShiftedBounds(labels, dn, DaysBefore(g, j), 1, DaysInMonth(g[j].key.year, g[j].key.month));
  }

  /** The labels of column `j` of a range run from 1 at the least to the
      length of the column's month at the most. */
  lemma DayLabelsInMonth(start: int, n: nat, j: nat)
    requires j < |Group(start, n)|
    ensures |Columns(start, n)| == |Group(start, n)|
    ensures 0 <= Group(start, n)[j].key.month < 12
    ensures Within(DayLabels(start, Columns(start, n), j), 1, DaysInMonth(Group(start, n)[j].key.year, Group(start, n)[j].key.month))
  {
    var months := Columns(start, n);
    ColumnsHoldCounts(start, n);
    LabelsWithinMonth(start, n, months, j);
  }

  /** From the second column on, the labels of a month list that holds the
      month counts of a range count the days of the month from 1. */
  lemma LabelsFromOne(start: int, n: nat, months: seq<MonthInfo>, j: nat)
    requires HoldsCounts(months, Group(start, n)) && 0 < j < |months|
    ensures CountsOn(DayLabels(start, months, j), 1)
  {
    var first := start + DaysBefore(Group(start, n), j);
    FirstDayOfColumn(start, n, months, j);
    GroupEntryBounds(start, n, j);
    GroupMonthStart(start, n, j);
    LabelsFromFirst(start, months, j, first);
  }

  /** From the second column on, the labels count the days of the month
      from 1: 1, 2, ..., the column's day count. */
  lemma LaterMonthLabels(start: int, n: nat, j: nat)
    requires 0 < j < |Group(start, n)|
    ensures |Columns(start, n)| == |Group(start, n)|
    ensures CountsOn(DayLabels(start, Columns(start, n), j), 1)
  {
    var months := Columns(start, n);
    ColumnsHoldCounts(start, n);
    LabelsFromOne(start, n, months, j);
  }

  /** A prefix of `dn` followed by the stretch of `dn` that comes right
      after it is a longer prefix of `dn`. */
  lemma ConcatShows(row: seq<int>, labels: seq<int>, dn: seq<int>)
    requires ShowsFrom(row, dn, 0) && ShowsFrom(labels, dn, |row|)
    ensures ShowsFrom(row + labels, dn, 0)
  {
    forall d | 0 <= d < |row + labels|
      ensures (row + labels)[d] == dn[d]
    {
      if d >= |row| {
        assert (row + labels)[d] == labels[d - |row|];
        assert |row| + (d - |row|) == d;
      }
    }
  }

  /** A sequence that repeats a whole other sequence from its start is
      that sequence. */
  lemma ShowsAll(row: seq<int>, dn: seq<int>)
    requires ShowsFrom(row, dn, 0) && |row| == |dn|
    ensures row == dn
  {
  }

  /** When the labels of every column repeat the entries of `dn` that
      follow those of the earlier columns, the first `j` columns of the day
      row repeat the first entries of `dn`, one per day of those columns. */
  lemma {:induction false} RowShows(startDate: int, months: seq<MonthInfo>, dn: seq<int>, j: nat)
    requires j <= |months|
    requires forall k :: 0 <= k < |months| ==> 0 <= months[k].dayCount
    requires forall k :: 0 <= k < |months| ==> ShowsFrom(DayLabels(startDate, months, k), dn, PrevMonthDays(months, k))
    ensures |DayRow(startDate, months, j)| == PrevMonthDays(months, j)
    ensures ShowsFrom(DayRow(startDate, months, j), dn, 0)
  {
    if j == 0 {
      assert months[..0] == [];
    } else {
      RowShows(startDate, months, dn, j - 1);
      var row, labels := DayRow(startDate, months, j - 1), DayLabels(startDate, months, j - 1);
      SumDayCountsStep(months, j);
      assert |labels| == months[j - 1].dayCount;
      ConcatShows(row, labels, dn);
      assert DayRow(startDate, months, j) == row + labels;
    }
  }

  /** The day row of a month list that holds the month counts of a range
      shows every day of the range once, in order, by its day of the month. */
  lemma RowShowsRange(start: int, n: nat, months: seq<MonthInfo>)
    requires HoldsCounts(months, Group(start, n))
    ensures DayRow(start, months, |months|) == DayNumbers(start, n)
  {
    var dn := DayNumbers(start, n);
    GroupBasics(start, n);
    forall k | 0 <= k < |months|
      ensures 0 <= months[k].dayCount
    {
      GroupEntryBounds(start, n, k);
    }
    forall k | 0 <= k < |months|
      ensures ShowsFrom(DayLabels(start, months, k), dn, PrevMonthDays(months, k))
    {
      PrefixDayCounts(months, Group(start, n), k);
      LabelsShowDays(start, n, months, k);
    }
    RowShows(start, months, dn, |months|);
    PrefixDayCounts(months, Group(start, n), |months|);
    ShowsAll(DayRow(start, months, |months|), dn);
  }

  /** The day row of a range shows every day of the range once, in order,
      by its day of the month; so it has one cell per day, and it is shown
      exactly when it has at most 90 cells. */
  lemma DayRowShowsRange(start: int, n: nat)
    ensures DayRow(start, Columns(start, n), |Columns(start, n)|) == DayNumbers(start, n)
    ensures ShowDays(n) <==> |DayRow(start, Columns(start, n), |Columns(start, n)|)| <= DAY_VIEW_THRESHOLD
  {
    var months := Columns(start, n);
    ColumnsHoldCounts(start, n);
    RowShowsRange(start, n, months);
  }
}
