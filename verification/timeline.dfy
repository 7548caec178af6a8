/** The timeline view (`Timeline`): the range of days the items span, the
    lanes of `assignLanes`, the month columns laid over the range, the grid
    lines between the months and the box of every item.

    Dates are day ordinals (module Calendar) and percentages are exact
    rationals (module MonthColumns). */
module Timeline {
  import opened Calendar
  import opened Months
  import opened Lanes
  import opened MonthColumns

  /** Milliseconds in a day. */
  const MS_PER_DAY: int := 1000 * 60 * 60 * 24

  /** Day `t` lies in a year that `Date.UTC` reads as it is. */
  predicate UtcKeepsYear(t: int) {
    FullYear(CivilFromDays(t).year) == CivilFromDays(t).year
  }

  /** The day that `Date.UTC(getFullYear(), getMonth(), getDate())` gives
      for day `t`, as a day ordinal. A day of the years 0 to 99 moves to the
      same month and day of 1900 to 1999; `Date.UTC` counts a day past the
      end of the month on into the next one, so 29 February of such a leap
      year lands on 1 March when the year 19xx is a common year. */
  function UtcDay(t: int): (u: int)
    ensures UtcKeepsYear(t) ==> u == t
  {
    var d := CivilFromDays(t);
    CivilFromDaysInverse(t);
    DaysFromCivil(CivilDate(FullYear(d.year), d.month, d.day))
  }

  /** A day of the years 0 to 99 is read by `Date.UTC` as a day of 1900 to 1999. */
  lemma UtcDayOfEarlyYear(t: int)
    requires !UtcKeepsYear(t)
    ensures DaysBeforeYear(1900) <= UtcDay(t) < DaysBeforeYear(2000)
  {
    var d := CivilFromDays(t);
    var y := 1900 + d.year;
    var e := if d.day <= DaysInMonth(y, d.month) then CivilDate(y, d.month, d.day) else CivilDate(y, 2, 1);
    var u := UtcDay(t);
    assert u == DaysFromCivil(e);
    DaysFromCivilInYear(e);
    assert DaysBeforeYear(y) <= u < DaysBeforeYear(y + 1);
    DaysBeforeYearMonotone(y, 2000);
    if y > 1900 { DaysBeforeYearMonotone(1899, y); }
  }

  /** `Date.UTC(getFullYear(), getMonth(), getDate())` of day `t`: its
      midnight in milliseconds since the epoch. */
  function UtcMidnight(t: int): (ms: int)
    ensures ms % MS_PER_DAY == 0
    ensures UtcKeepsYear(t) ==> ms == t * MS_PER_DAY
  {
    UtcDay(t) * MS_PER_DAY
  }

  /** Whole days scale to milliseconds and back exactly. */
  lemma ScaledDifference(x: int, y: int)
    ensures (x * MS_PER_DAY - y * MS_PER_DAY) / MS_PER_DAY == x - y
  {
    assert x * MS_PER_DAY - y * MS_PER_DAY == (x - y) * MS_PER_DAY;
  }

  /** `dateDiffInDays`: the floor of the difference of the two midnights
      over the length of a day (for a positive divisor Dafny's `/` rounds
      down, as `Math.floor` of the quotient does). It is the difference of
      the days `Date.UTC` sees; for two days outside the years 0 to 99 it is
      the number of days from `a` to `b`, negative when `b` comes first. */
  function DateDiffInDays(a: int, b: int): (r: int)
    ensures r == UtcDay(b) - UtcDay(a)
    ensures UtcKeepsYear(a) && UtcKeepsYear(b) ==> r == b - a
  {
    ScaledDifference(UtcDay(b), UtcDay(a));
    (UtcMidnight(b) - UtcMidnight(a)) / MS_PER_DAY
  }

  /** 31 December 99 and 1 January 100 are consecutive days, but
      `dateDiffInDays` counts from 1999-12-31 to 0100-01-01. */
  lemma DateDiffAcrossYear100()
    ensures DaysFromCivil(CivilDate(100, 0, 1)) == DaysFromCivil(CivilDate(99, 11, 31)) + 1
    ensures DateDiffInDays(DaysFromCivil(CivilDate(99, 11, 31)), DaysFromCivil(CivilDate(100, 0, 1))) == -693959
  {
    var a, b := CivilDate(99, 11, 31), CivilDate(100, 0, 1);
    assert DaysFromCivil(b) == DaysFromCivil(a) + 1 == -683003 by {
      assert DaysBeforeYear(100) == -683003;
      YearEnd(99);
    }
    assert UtcDay(DaysFromCivil(a)) == 10956 by {
      assert DaysBeforeYear(2000) == 10957;
      CivilFromDaysOfCivil(a);
      YearEnd(1999);
    }
    assert UtcDay(DaysFromCivil(b)) == -683003 by {
      CivilFromDaysOfCivil(b);
    }
  }

  /** 29 February and 1 March of the year 0 are consecutive days, but
      `dateDiffInDays` finds no day between them: both become 1900-03-01. */
  lemma DateDiffLeapDayOfYear0()
    ensures DaysFromCivil(CivilDate(0, 2, 1)) == DaysFromCivil(CivilDate(0, 1, 29)) + 1
    ensures DateDiffInDays(DaysFromCivil(CivilDate(0, 1, 29)), DaysFromCivil(CivilDate(0, 2, 1))) == 0
  {
    CivilFromDaysOfCivil(CivilDate(0, 1, 29));
    CivilFromDaysOfCivil(CivilDate(0, 2, 1));
  }

  // ---------------------------------------------------------------------------
  // The range of the items

  /** The earliest start among the items. */
  function MinStart(items: seq<Item>): (m: int)
    requires items != []
    ensures forall i :: 0 <= i < |items| ==> m <= items[i].start
    ensures exists i :: 0 <= i < |items| && items[i].start == m
  {
    if |items| == 1 then items[0].start
    else
      var init := items[..|items| - 1];
      var m' := MinStart(init);
      assert forall i :: 0 <= i < |init| ==> init[i] == items[i];
      if items[|items| - 1].start < m' then items[|items| - 1].start else m'
  }

  /** The latest end among the items. */
  function MaxEnd(items: seq<Item>): (m: int)
    requires items != []
    ensures forall i :: 0 <= i < |items| ==> items[i].end <= m
    ensures exists i :: 0 <= i < |items| && items[i].end == m
  {
    if |items| == 1 then items[0].end
    else
      var init := items[..|items| - 1];
      var m' := MaxEnd(init);
      assert forall i :: 0 <= i < |init| ==> init[i] == items[i];
      if items[|items| - 1].end > m' then items[|items| - 1].end else m'
  }

  /** The loop that scans the items for the earliest start and the latest
      end, beginning with the first item's dates and replacing a bound only
      by a strictly earlier start or a strictly later end. */
  method DateRange(items: seq<Item>) returns (minDate: int, maxDate: int)
    requires items != []
    ensures minDate == MinStart(items) && maxDate == MaxEnd(items)
  {
    minDate, maxDate := items[0].start, items[0].end;
    assert items[..1] == [items[0]];
    for i := 0 to |items|
      invariant minDate == MinStart(items[..if i == 0 then 1 else i])
      invariant maxDate == MaxEnd(items[..if i == 0 then 1 else i])
    {
      assert items[..i + 1][..i] == items[..i];
      var itemStart, itemEnd := items[i].start, items[i].end;
      if itemStart < minDate {
        minDate := itemStart;
      }
      if itemEnd > maxDate {
        maxDate := itemEnd;
      }
    }
    assert items[..|items|] == items;
  }

  // ---------------------------------------------------------------------------
  // The memoised timeline data

  /** What the memoised computation hands to the view. */
  datatype TimelineData = TimelineData(lanes: seq<seq<Item>>, startDate: int, totalDays: int, months: seq<MonthInfo>)

  /** The timeline data of `items`, defined by what it means: with no item,
      no lanes, no days, no months and `today` as the start; otherwise the
      first-fit lanes of the items sorted by start, the range from the
      earliest start to the latest end, both days included as
      `dateDiffInDays` counts them, and the month columns of that range. */
  function TimelineOf(items: seq<Item>, today: int): TimelineData {
    if items == [] then TimelineData([], today, 0, [])
    else
      var start := MinStart(items);
      var days := DateDiffInDays(start, MaxEnd(items)) + 1;
      TimelineData(Pack(SortByStart(items)), start, days, Columns(start, days))
  }

  /** The memoised computation of the view. The clock reading that
      `new Date()` gives the empty timeline is the parameter `today`. */
  method BuildTimeline(items: seq<Item>, today: int) returns (data: TimelineData)
    ensures data == TimelineOf(items, today)
  {
    if |items| == 0 {
      data := TimelineData([], today, 0, []);
      return;
    }
    var assignedLanes := AssignLanes(items);
    var minDate, maxDate := DateRange(items);
    var days := DateDiffInDays(minDate, maxDate) + 1;
    var monthList := TimelineMonths(minDate, days);
    data := TimelineData(assignedLanes, minDate, days, monthList);
  }

  /** The month columns of the memoised computation: the days of the range
      counted month by month in a map, then turned into one labelled column
      per month, in the order the months are met. */
  method TimelineMonths(startDate: int, days: int) returns (months: seq<MonthInfo>)
    ensures months == Columns(startDate, days)
  {
    var entries := CountMonths(startDate, days);
    GroupKeysValid(startDate, days);
    months := MonthList(entries, days);
  }

  /** The range of a timeline with items starts at the earliest start and,
      when neither end lies in the years 0 to 99, ends at the latest end;
      then, when some item ends no earlier than it starts, it holds at
      least one day. */
  lemma TimelineRange(items: seq<Item>, today: int)
    requires items != []
    ensures TimelineOf(items, today).startDate == MinStart(items)
    ensures UtcKeepsYear(MinStart(items)) && UtcKeepsYear(MaxEnd(items)) ==>
              TimelineOf(items, today).totalDays == MaxEnd(items) - MinStart(items) + 1
    ensures UtcKeepsYear(MinStart(items)) && UtcKeepsYear(MaxEnd(items)) && (exists i :: 0 <= i < |items| && ValidItem(items[i])) ==>
              TimelineOf(items, today).totalDays >= 1
  {
    if exists i :: 0 <= i < |items| && ValidItem(items[i]) {
      var i :| 0 <= i < |items| && ValidItem(items[i]);
      assert MinStart(items) <= items[i].start <= items[i].end <= MaxEnd(items);
    }
  }

  /** The columns of a timeline with at least one day hold all its days,
      one month after another, and fill the full width; there are no more
      columns than days. */
  lemma TimelineColumns(items: seq<Item>, today: int)
    requires TimelineOf(items, today).totalDays >= 1
    ensures 1 <= |TimelineOf(items, today).months| <= TimelineOf(items, today).totalDays
    ensures SumDayCounts(TimelineOf(items, today).months) == TimelineOf(items, today).totalDays
    ensures SumWidths(TimelineOf(items, today).months) == 100.0
  {
    var data := TimelineOf(items, today);
    assert data.months == Columns(data.startDate, data.totalDays);
    ColumnsFillTimeline(data.startDate, data.totalDays);
  }

  // ---------------------------------------------------------------------------
  // Items and grid lines

  /** Where an item sits on the timeline: the offset of its first day from
      the start, its length in days (both ends included), and its left edge
      and width in percent of the range. */
  datatype Box = Box(offset: int, duration: int, left: real, width: real)

  /** The box of one item of a lane: outside the years 0 to 99 its offset
      is the number of days from the start of the range to the item's start
      and its duration the number of days of the item, both ends included;
      its left edge and width are those counts as shares of the range. */
  function ItemBox(startDate: int, totalDays: int, x: Item): (b: Box)
    requires totalDays != 0
    ensures UtcKeepsYear(startDate) && UtcKeepsYear(x.start) ==> b.offset == x.start - startDate
    ensures UtcKeepsYear(x.start) && UtcKeepsYear(x.end) ==> b.duration == x.end - x.start + 1
    ensures b.left == Percent(b.offset, totalDays) && b.width == Percent(b.duration, totalDays)
  {
    var offset := DateDiffInDays(startDate, x.start);
    var duration := DateDiffInDays(x.start, x.end) + 1;
    Box(offset, duration, Percent(offset, totalDays), Percent(duration, totalDays))
  }

  /** An item that lies in the range gets a box inside the timeline: it
      starts at or after the left edge, is at least one day long, ends by
      the right edge, and its left edge and width are the shares of its
      offset and its length. */
  lemma ItemBoxInside(startDate: int, totalDays: int, x: Item)
    requires ValidItem(x) && UtcKeepsYear(startDate) && UtcKeepsYear(x.start) && UtcKeepsYear(x.end)
    requires startDate <= x.start && x.end <= startDate + totalDays - 1
    ensures totalDays >= 1
    ensures ItemBox(startDate, totalDays, x).offset == x.start - startDate >= 0
    ensures ItemBox(startDate, totalDays, x).duration == x.end - x.start + 1 >= 1
    ensures ItemBox(startDate, totalDays, x).offset + ItemBox(startDate, totalDays, x).duration <= totalDays
    ensures 0.0 <= ItemBox(startDate, totalDays, x).left
    ensures 0.0 < ItemBox(startDate, totalDays, x).width
    ensures ItemBox(startDate, totalDays, x).left + ItemBox(startDate, totalDays, x).width <= 100.0
  {
    var b := ItemBox(startDate, totalDays, x);
    if b.offset > 0 {
      PercentBounds(b.offset, totalDays);
    }
    PercentBounds(b.duration, totalDays);
    PercentAdd(b.offset, b.duration, totalDays);
    PercentBounds(b.offset + b.duration, totalDays);
  }

  /** An item drawn inside a timeline of `totalDays` days from `startDate`:
      its box starts at or after the left edge, has a positive width and
      ends by the right edge. */
  predicate DrawnInside(startDate: int, totalDays: int, x: Item) {
    && totalDays >= 1
    && 0.0 <= ItemBox(startDate, totalDays, x).left
    && 0.0 < ItemBox(startDate, totalDays, x).width
    && ItemBox(startDate, totalDays, x).left + ItemBox(startDate, totalDays, x).width <= 100.0
  }

  /** Every item of every lane of a timeline whose items all end no
      earlier than they start, outside the years 0 to 99, is one of the
      items and is drawn inside the timeline. */
  lemma TimelineItemsInside(items: seq<Item>, today: int)
    requires forall i :: 0 <= i < |items| ==> ValidItem(items[i]) && UtcKeepsYear(items[i].start) && UtcKeepsYear(items[i].end)
    ensures forall k, p :: 0 <= k < |TimelineOf(items, today).lanes| && 0 <= p < |TimelineOf(items, today).lanes[k]| ==>
              && TimelineOf(items, today).lanes[k][p] in items
              && DrawnInside(TimelineOf(items, today).startDate, TimelineOf(items, today).totalDays,
                             TimelineOf(items, today).lanes[k][p])
  {
    var data := TimelineOf(items, today);
    if items != [] {
      var sorted := SortByStart(items);
      assert data.lanes == Pack(sorted);
      PackPartition(sorted);
      TimelineRange(items, today);
      forall k, p | 0 <= k < |data.lanes| && 0 <= p < |data.lanes[k]|
        ensures data.lanes[k][p] in items && DrawnInside(data.startDate, data.totalDays, data.lanes[k][p])
      {
        var x := data.lanes[k][p];
        FlattenContains(data.lanes, k, p);
        assert x in multiset(items);
        var i :| 0 <= i < |items| && items[i] == x;
        assert data.startDate <= x.start && x.end <= data.startDate + data.totalDays - 1;
        ItemBoxInside(data.startDate, data.totalDays, x);
      }
    }
  }

  /** The grid lines: the widths of the columns added up as the map over
      the columns goes, with a line after every column but the last. */
  method GridLines(months: seq<MonthInfo>) returns (lines: seq<real>)
    ensures |lines| == if months == [] then 0 else |months| - 1
    ensures forall i :: 0 <= i < |lines| ==> lines[i] == SumWidths(months[..i + 1])
  {
    var accumulatedLeft := 0.0;
    lines := [];
    for index := 0 to |months|
      invariant accumulatedLeft == SumWidths(months[..index])
      invariant |lines| == if index == |months| && index > 0 then index - 1 else index
      invariant forall i :: 0 <= i < |lines| ==> lines[i] == SumWidths(months[..i + 1])
    {
      SumWidthsStep(months, index + 1);
      accumulatedLeft := accumulatedLeft + months[index].width;
      if index == |months| - 1 {
        continue;
      }
      lines := lines + [accumulatedLeft];
    }
  }

  /** The grid line after column `j - 1` of a range stands at the left edge
      of the first day of month `j`: at the share of the days before that
      month, strictly inside the timeline, on a day that is the first of its
      month. */
  lemma GridLineAtMonthStart(start: int, n: nat, j: nat)
    requires 0 < j < |Group(start, n)|
    ensures CivilFromDays(start + DaysBefore(Group(start, n), j)).day == 1
    ensures SumWidths(Columns(start, n)[..j]) == Percent(DaysBefore(Group(start, n), j), n)
    ensures 0.0 < SumWidths(Columns(start, n)[..j]) < 100.0
  {
    GroupKeysValid(start, n);
    GroupMonthStart(start, n, j);
    MonthListWidthPrefix(Group(start, n), n, j);
    PercentInside(DaysBefore(Group(start, n), j), n);
  }
}
