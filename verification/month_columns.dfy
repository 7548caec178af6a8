/** The month columns of the timeline and its header.

    The counts of the month map become columns: each gets the label of its
    month, a width that is its share of the range in percent, and its number
    of days. Widths are exact rational numbers here. */
module MonthColumns {
  import opened Calendar
  import opened Months

  /** One column: the month's label, its width in percent and its days. */
  datatype MonthInfo = MonthInfo(name: string, width: real, dayCount: int)

  const MONTH_NAMES: seq<string> :=
    ["January", "February", "March", "April", "May", "June",
     "July", "August", "September", "October", "November", "December"]

  /** A decimal digit. */
  function Digit(d: int): char
    requires 0 <= d < 10
  {
    (48 + d) as char
  }

  /** The decimal numeral of `n`, without leading zeros. */
  function Decimal(n: nat): (s: string)
    ensures |s| >= 1
    ensures forall i :: 0 <= i < |s| ==> '0' <= s[i] <= '9'
  {
    if n < 10 then [Digit(n)] else Decimal(n / 10) + [Digit(n % 10)]
  }

  /** The number that a string of decimal digits spells. */
  function DigitsValue(s: string): int {
    if s == [] then 0 else DigitsValue(s[..|s| - 1]) * 10 + (s[|s| - 1] as int - 48)
  }

  /** The numeral of `n` spells `n`. */
  lemma {:induction false} DecimalValue(n: nat)
    ensures DigitsValue(Decimal(n)) == n
  {
    if n >= 10 {
      DecimalValue(n / 10);
      assert Decimal(n)[..|Decimal(n)| - 1] == Decimal(n / 10);
    }
  }

  /** The label `toLocaleString("en-US", { month: "long", year: "numeric" })`
      gives `new Date(year, month)`. The year is read back from the key text
      `year-month`: a negative year puts a second `-` in front and the year
      reads as not-a-number, an invalid date; and the `Date` constructor
      takes a year from 0 to 99 as 1900 to 1999. */
  function MonthName(key: MonthKey): (text: string)
    requires 0 <= key.month < 12
    ensures key.year < 0 ==> text == "Invalid Date"
    ensures key.year >= 0 ==> text == MONTH_NAMES[key.month] + " " + Decimal(FullYear(key.year))
  {
    if key.year < 0 then "Invalid Date"
    else
      MONTH_NAMES[key.month] + " " + Decimal(FullYear(key.year))
  }

  /** The label of a month of a year from 0 on reads back as the month's
      name, a space and digits that spell the full year. */
  lemma MonthNameParts(key: MonthKey)
    requires 0 <= key.month < 12 && key.year >= 0
    ensures |MonthName(key)| > |MONTH_NAMES[key.month]| + 1
    ensures MonthName(key)[..|MONTH_NAMES[key.month]|] == MONTH_NAMES[key.month]
    ensures MonthName(key)[|MONTH_NAMES[key.month]|] == ' '
    ensures DigitsValue(MonthName(key)[|MONTH_NAMES[key.month]| + 1..]) == FullYear(key.year)
  {
    var name, digits := MONTH_NAMES[key.month], Decimal(FullYear(key.year));
    assert MonthName(key) == name + " " + digits;
    assert MonthName(key)[|name| + 1..] == digits;
    DecimalValue(FullYear(key.year));
  }

  /** Only a negative year is labelled "Invalid Date". */
  lemma MonthNameOfDate(key: MonthKey)
    requires 0 <= key.month < 12 && key.year >= 0
    ensures MonthName(key) != "Invalid Date"
  {
    assert MonthName(key)[0] == MONTH_NAMES[key.month][0] != 'I';
  }

  /** The width in percent of one day of a range of `whole` days. */
  function PercentPerDay(whole: int): real
    requires whole != 0
  {
    100.0 / whole as real
  }

  /** `(part / whole) * 100`, exactly: `part` days of a range of `whole`
      days, in percent. */
  function Percent(part: int, whole: int): real
    requires whole != 0
  {
    part as real * PercentPerDay(whole)
  }

  /** The columns of the month map's entries, for a range of `days` days. */
  function MonthList(entries: seq<MonthCount>, days: int): (ms: seq<MonthInfo>)
    requires entries == [] || days != 0
    requires forall j :: 0 <= j < |entries| ==> 0 <= entries[j].key.month < 12
    ensures |ms| == |entries|
    ensures forall j :: 0 <= j < |ms| ==> ms[j].name == MonthName(entries[j].key) && ms[j].dayCount == entries[j].dayCount
  {
    seq(|entries|, j requires 0 <= j < |entries| =>
      MonthInfo(MonthName(entries[j].key), Percent(entries[j].dayCount, days), entries[j].dayCount))
  }

  /** The keys of the months of a range are valid month indices, and a
      non-empty range has a non-zero length. */
  lemma GroupKeysValid(start: int, n: int)
    ensures Group(start, n) == [] || n != 0
    ensures forall j :: 0 <= j < |Group(start, n)| ==> 0 <= Group(start, n)[j].key.month < 12
  {
    if n > 0 {
      forall j | 0 <= j < |Group(start, n)| ensures 0 <= Group(start, n)[j].key.month < 12 {
        DayCountBounds(start, n, j);
      }
    }
  }

  /** The month columns of the `days` days from `startDate`. */
  function Columns(startDate: int, days: int): seq<MonthInfo> {
    GroupKeysValid(startDate, days);
    MonthList(Group(startDate, days), days)
  }

  /** The widths of the columns, added one after another. */
  function SumWidths(ms: seq<MonthInfo>): real {
    if ms == [] then 0.0 else SumWidths(ms[..|ms| - 1]) + ms[|ms| - 1].width
  }

  /** The day counts of the columns, added one after another: the
      `reduce((acc, m) => acc + m.dayCount, 0)` of the header. */
  function SumDayCounts(ms: seq<MonthInfo>): int {
    if ms == [] then 0 else SumDayCounts(ms[..|ms| - 1]) + ms[|ms| - 1].dayCount
  }

  lemma PercentAdd(a: int, b: int, whole: int)
    requires whole != 0
    ensures Percent(a, whole) + Percent(b, whole) == Percent(a + b, whole)
  {
  }

  lemma PercentWhole(whole: int)
    requires whole != 0
    ensures Percent(whole, whole) == 100.0
  {
  }

  /** A share of between one part and the whole is positive and at most 100
      percent, and scales back to the part. */
  lemma PercentBounds(part: int, whole: int)
    requires 1 <= part <= whole
    ensures 0.0 < Percent(part, whole) <= 100.0
    ensures Percent(part, whole) * (whole as real) == (part as real) * 100.0
  {
  }

  /** A share of more than nothing and less than the whole lies strictly
      between 0 and 100 percent. */
  lemma PercentInside(part: int, whole: int)
    requires 0 < part < whole
    ensures 0.0 < Percent(part, whole) < 100.0
  {
    PercentBounds(part, whole);
    PercentBounds(whole - part, whole);
    PercentAdd(part, whole - part, whole);
    PercentWhole(whole);
  }

  /** Entries with valid months, for a range of `days` days. */
  predicate ListableEntries(entries: seq<MonthCount>, days: int) {
    && (entries == [] || days != 0)
    && (forall j :: 0 <= j < |entries| ==> 0 <= entries[j].key.month < 12)
  }

  /** The first `j` columns together hold the days of the first `j` entries. */
  lemma {:induction false} MonthListDayPrefix(entries: seq<MonthCount>, days: int, j: nat)
    requires ListableEntries(entries, days)
    requires j <= |entries|
    ensures SumDayCounts(MonthList(entries, days)[..j]) == DaysBefore(entries, j)
  {
    if j > 0 {
      var ms := MonthList(entries, days);
      MonthListDayPrefix(entries, days, j - 1);
      SumDayCountsStep(ms, j);
      assert ms[j - 1].dayCount == entries[j - 1].dayCount;
    }
  }

  /** Columns each as wide as the share of its entry's days. */
  predicate WidthsOf(ms: seq<MonthInfo>, entries: seq<MonthCount>, days: int)
    requires days != 0
  {
    |ms| == |entries| && forall i :: 0 <= i < |ms| ==> ms[i].width == Percent(entries[i].dayCount, days)
  }

  /** Such columns are together as wide as the share of their entries' days. */
  lemma {:induction false} WidthsPrefix(ms: seq<MonthInfo>, entries: seq<MonthCount>, days: int, j: nat)
    requires days != 0 && WidthsOf(ms, entries, days)
    requires j <= |entries|
    ensures SumWidths(ms[..j]) == Percent(DaysBefore(entries, j), days)
  {
    if j > 0 {
      WidthsPrefix(ms, entries, days, j - 1);
      SumWidthsStep(ms, j);
      PercentAdd(DaysBefore(entries, j - 1), entries[j - 1].dayCount, days);
    }
  }

  /** The first `j` columns together are as wide as the share of the days
      of the first `j` entries. */
  lemma MonthListWidthPrefix(entries: seq<MonthCount>, days: int, j: nat)
    requires ListableEntries(entries, days) && days != 0
    requires j <= |entries|
    ensures SumWidths(MonthList(entries, days)[..j]) == Percent(DaysBefore(entries, j), days)
  {
    var ms := MonthList(entries, days);
    assert WidthsOf(ms, entries, days);
    WidthsPrefix(ms, entries, days, j);
  }

  lemma SumDayCountsStep(ms: seq<MonthInfo>, j: nat)
    requires 0 < j <= |ms|
    ensures SumDayCounts(ms[..j]) == SumDayCounts(ms[..j - 1]) + ms[j - 1].dayCount
  {
    assert ms[..j][..j - 1] == ms[..j - 1];
  }

  lemma SumWidthsStep(ms: seq<MonthInfo>, j: nat)
    requires 0 < j <= |ms|
    ensures SumWidths(ms[..j]) == SumWidths(ms[..j - 1]) + ms[j - 1].width
  {
    assert ms[..j][..j - 1] == ms[..j - 1];
  }

  /** All the columns together hold the days of all the entries, and are as
      wide as the share of those days. */
  lemma MonthListSums(entries: seq<MonthCount>, days: int)
    requires ListableEntries(entries, days) && days != 0
    ensures SumDayCounts(MonthList(entries, days)) == DaysBefore(entries, |entries|)
    ensures SumWidths(MonthList(entries, days)) == Percent(DaysBefore(entries, |entries|), days)
  {
    var ms := MonthList(entries, days);
    MonthListDayPrefix(entries, days, |entries|);
    MonthListWidthPrefix(entries, days, |entries|);
    assert ms[..|entries|] == ms;
  }

  /** A column of a month with between one day and the whole range is wider
      than nothing and at most as wide as the whole, in proportion to its days. */
  lemma MonthListWidth(entries: seq<MonthCount>, days: int, j: nat)
    requires ListableEntries(entries, days)
    requires j < |entries| && 1 <= entries[j].dayCount <= days
    ensures MonthList(entries, days)[j].width * (days as real) == (entries[j].dayCount as real) * 100.0
    ensures 0.0 < MonthList(entries, days)[j].width <= 100.0
  {
    assert MonthList(entries, days)[j].width == Percent(entries[j].dayCount, days);
    PercentBounds(entries[j].dayCount, days);
  }

  /** The columns of a non-empty range hold all its days, and fill the width
      exactly: their widths add up to 100 percent. */
  lemma ColumnsFillTimeline(start: int, n: nat)
    requires n > 0
    ensures 1 <= |Columns(start, n)| <= n
    ensures SumDayCounts(Columns(start, n)) == n
    ensures SumWidths(Columns(start, n)) == 100.0
  {
    GroupBasics(start, n);
    GroupKeysValid(start, n);
    MonthListSums(Group(start, n), n);
    PercentWhole(n);
  }

  /** A month list whose columns hold, one for one, the days of the month
      counts `g`. */
  predicate HoldsCounts(months: seq<MonthInfo>, g: seq<MonthCount>) {
    |months| == |g| && forall k :: 0 <= k < |g| ==> months[k].dayCount == g[k].dayCount
  }

  /** The columns of a range hold the range's month counts. */
  lemma ColumnsHoldCounts(start: int, n: nat)
    ensures HoldsCounts(Columns(start, n), Group(start, n))
  {
    GroupKeysValid(start, n);
  }

  /** The columns before column `j` of a month list that holds `g` hold the
      days of the entries of `g` before entry `j`. */
  lemma {:induction false} PrefixDayCounts(months: seq<MonthInfo>, g: seq<MonthCount>, j: nat)
    requires HoldsCounts(months, g) && j <= |g|
    ensures SumDayCounts(months[..j]) == DaysBefore(g, j)
  {
    if j > 0 {
      PrefixDayCounts(months, g, j - 1);
      SumDayCountsStep(months, j);
    }
  }

  /** Column `j` has month `j`'s days and label. */
  lemma ColumnShape(start: int, n: nat, j: nat)
    requires j < |Group(start, n)|
    ensures |Columns(start, n)| == |Group(start, n)|
    ensures 0 <= Group(start, n)[j].key.month < 12
    ensures Columns(start, n)[j].name == MonthName(Group(start, n)[j].key)
    ensures Columns(start, n)[j].dayCount == Group(start, n)[j].dayCount
  {
    GroupKeysValid(start, n);
  }

  /** Column `j` is as wide as its share of the range: positive, at most the
      whole, and proportional to its days. */
  lemma ColumnWidth(start: int, n: nat, j: nat)
    requires j < |Group(start, n)|
    ensures |Columns(start, n)| == |Group(start, n)|
    ensures Columns(start, n)[j].width * (n as real) == (Group(start, n)[j].dayCount as real) * 100.0
    ensures 0.0 < Columns(start, n)[j].width <= 100.0
  {
    GroupKeysValid(start, n);
    GroupEntryBounds(start, n, j);
    MonthListWidth(Group(start, n), n, j);
  }

  /** A month of a range holds at least one of its days and at most all. */
  lemma GroupEntryBounds(start: int, n: nat, j: nat)
    requires j < |Group(start, n)|
    ensures 1 <= Group(start, n)[j].dayCount <= n
  {
    GroupBasics(start, n);
    EntryWithinTotal(Group(start, n), j);
  }

  /** With no negative counts, no entry holds more days than all of them. */
  lemma EntryWithinTotal(g: seq<MonthCount>, j: nat)
    requires j < |g|
    requires forall t :: 0 <= t < |g| ==> g[t].dayCount >= 0
    ensures g[j].dayCount <= DaysBefore(g, |g|)
  {
    DaysBeforeMonotone(g, 0, j);
    DaysBeforeMonotone(g, j + 1, |g|);
  }

  // ---------------------------------------------------------------------------
  // Month labels

  /** The index of the first space of `s`, or `|s|` when there is none. */
  function SpaceIndex(s: string): nat {
    if s == [] then 0 else if s[0] == ' ' then 0 else 1 + SpaceIndex(s[1..])
  }

  lemma {:induction false} SpaceIndexAfterWord(a: string, rest: string)
    requires ' ' !in a
    ensures SpaceIndex(a + " " + rest) == |a|
    decreases |a|
  {
    if a != [] {
      assert (a + " " + rest)[1..] == a[1..] + " " + rest;
      SpaceIndexAfterWord(a[1..], rest);
    }
  }

  /** A label made of a word without spaces, a space and a rest splits back
      into the word and the rest. */
  lemma SplitAtSpace(a: string, b: string, c: string, d: string)
    requires ' ' !in a && ' ' !in c
    requires a + " " + b == c + " " + d
    ensures a == c && b == d
  {
    var s := a + " " + b;
    SpaceIndexAfterWord(a, b);
    SpaceIndexAfterWord(c, d);
    assert a == s[..|a|] == c;
    assert b == s[|a| + 1..] == d;
  }

  /** Different numbers have different numerals. */
  lemma {:induction false} DecimalInjective(a: nat, b: nat)
    requires Decimal(a) == Decimal(b)
    ensures a == b
    decreases a
  {
    if a >= 10 && b >= 10 {
      var da, db := Decimal(a), Decimal(b);
      assert da[..|da| - 1] == Decimal(a / 10);
      assert db[..|db| - 1] == Decimal(b / 10);
      DecimalInjective(a / 10, b / 10);
    }
  }

  /** No month name holds a space. */
  lemma MonthNameWithoutSpace(month: int)
    requires 0 <= month < 12
    ensures ' ' !in MONTH_NAMES[month]
  {
  }

  /** Months of years from 100 on with the same label are the same month, so
      the labels can serve as keys of the month columns. */
  lemma MonthNameInjective(a: MonthKey, b: MonthKey)
    requires 0 <= a.month < 12 && 0 <= b.month < 12
    requires a.year >= 100 && b.year >= 100
    requires MonthName(a) == MonthName(b)
    ensures a == b
  {
    var na, nb := MONTH_NAMES[a.month], MONTH_NAMES[b.month];
    assert MonthName(a) == na + " " + Decimal(a.year);
    assert MonthName(b) == nb + " " + Decimal(b.year);
    MonthNameWithoutSpace(a.month);
    MonthNameWithoutSpace(b.month);
    SplitAtSpace(na, Decimal(a.year), nb, Decimal(b.year));
    DecimalInjective(a.year, b.year);
  }

  /** Year 50 and year 1950 share their labels. */
  lemma MonthNameOfEarlyYear()
    ensures MonthName(MonthKey(50, 0)) == MonthName(MonthKey(1950, 0)) == "January 1950"
  {
    assert Decimal(1950) == "1950" by {
      assert Decimal(1) == "1";
      assert Decimal(19) == "19";
      assert Decimal(195) == "195";
    }
  }
}
