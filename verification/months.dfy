/** Counting the days of a date range month by month.

    Both the timeline and its header walk the days of the range one at a
    time, from the start date, and count how many fall into each calendar
    month, under a key made of the year and the month index. A JavaScript
    `Map` keeps its keys in insertion order, so the counts come out in the
    order the months are first met. */
module Months {
  import opened Calendar

  /** One entry of the month map: a month and the number of days of the
      range that fall into it. */
  datatype MonthCount = MonthCount(key: MonthKey, dayCount: int)

  // ---------------------------------------------------------------------------
  // Runs of equal keys

  /** The counts after one more day of month `key`: the last count grows
      when the day belongs to the last month met, else a new month starts. */
  function Tally(g: seq<MonthCount>, key: MonthKey): seq<MonthCount> {
    if g != [] && g[|g| - 1].key == key then g[..|g| - 1] + [MonthCount(key, g[|g| - 1].dayCount + 1)]
    else g + [MonthCount(key, 1)]
  }

  /** The runs of equal consecutive keys of `ks`, each with its length. */
  function Runs(ks: seq<MonthKey>): seq<MonthCount> {
    if ks == [] then [] else Tally(Runs(ks[..|ks| - 1]), ks[|ks| - 1])
  }

  /** The number of days of the first `j` entries: the position, counted from
      the start of the range, of the first day of entry `j`. */
  function DaysBefore(g: seq<MonthCount>, j: nat): int
    requires j <= |g|
  {
    if j == 0 then 0 else DaysBefore(g, j - 1) + g[j - 1].dayCount
  }

  /** Strictly chronological months. */
  predicate Increasing(g: seq<MonthCount>) {
    forall p, q :: 0 <= p < q < |g| ==> KeyBefore(g[p].key, g[q].key)
  }

  lemma TallyCases(g: seq<MonthCount>, key: MonthKey)
    ensures g != [] && g[|g| - 1].key == key ==>
              && |Tally(g, key)| == |g|
              && (forall t :: 0 <= t < |g| - 1 ==> Tally(g, key)[t] == g[t])
              && Tally(g, key)[|g| - 1] == MonthCount(key, g[|g| - 1].dayCount + 1)
    ensures !(g != [] && g[|g| - 1].key == key) ==>
              && |Tally(g, key)| == |g| + 1
              && (forall t :: 0 <= t < |g| ==> Tally(g, key)[t] == g[t])
              && Tally(g, key)[|g|] == MonthCount(key, 1)
  {
  }

  /** Sequences that agree on their first `j` entries agree on their days. */
  lemma {:induction false} DaysBeforeAgree(a: seq<MonthCount>, b: seq<MonthCount>, j: nat)
    requires j <= |a| && j <= |b|
    requires forall t :: 0 <= t < j ==> a[t] == b[t]
    ensures DaysBefore(a, j) == DaysBefore(b, j)
  {
    if j > 0 {
      DaysBeforeAgree(a, b, j - 1);
    }
  }

  /** With no negative counts, later entries start later. */
  lemma {:induction false} DaysBeforeMonotone(g: seq<MonthCount>, i: nat, j: nat)
    requires i <= j <= |g|
    requires forall t :: 0 <= t < |g| ==> g[t].dayCount >= 0
    ensures DaysBefore(g, i) <= DaysBefore(g, j)
  {
    if i < j {
      DaysBeforeMonotone(g, i, j - 1);
    }
  }

  /** No run is empty, there are no more runs than keys, and the last run is
      that of the last key. */
  lemma RunsShape(ks: seq<MonthKey>)
    ensures Runs(ks) == [] <==> ks == []
    ensures ks != [] ==> Runs(ks)[|Runs(ks)| - 1].key == ks[|ks| - 1]
    ensures |Runs(ks)| <= |ks|
    ensures forall j :: 0 <= j < |Runs(ks)| ==> Runs(ks)[j].dayCount >= 1
  {
    if ks != [] {
      TallyCases(Runs(ks[..|ks| - 1]), ks[|ks| - 1]);
    }
    RunsLength(ks);
    RunsCounts(ks);
  }

  lemma {:induction false} RunsLength(ks: seq<MonthKey>)
    ensures |Runs(ks)| <= |ks|
  {
    if ks != [] {
      RunsLength(ks[..|ks| - 1]);
      TallyCases(Runs(ks[..|ks| - 1]), ks[|ks| - 1]);
    }
  }

  lemma {:induction false} RunsCounts(ks: seq<MonthKey>)
    ensures forall j :: 0 <= j < |Runs(ks)| ==> Runs(ks)[j].dayCount >= 1
  {
    if ks != [] {
      RunsCounts(ks[..|ks| - 1]);
      TallyCases(Runs(ks[..|ks| - 1]), ks[|ks| - 1]);
    }
  }

  /** The runs are as long as the keys together. */
  lemma {:induction false} RunsTotal(ks: seq<MonthKey>)
    ensures DaysBefore(Runs(ks), |Runs(ks)|) == |ks|
  {
    if ks != [] {
      var ks' := ks[..|ks| - 1];
      var x := ks[|ks| - 1];
      var r0 := Runs(ks');
      var r := Runs(ks);
      RunsTotal(ks');
      TallyCases(r0, x);
      if r0 != [] && r0[|r0| - 1].key == x {
        DaysBeforeAgree(r, r0, |r0| - 1);
      } else {
        DaysBeforeAgree(r, r0, |r0|);
      }
    }
  }

  /** Run `j` is made of the `dayCount` keys that follow the keys of the
      runs before it, and each of them is the run's key. */
  lemma {:induction false} RunsSegment(ks: seq<MonthKey>, j: nat, i: nat)
    requires j < |Runs(ks)| && i < Runs(ks)[j].dayCount
    ensures 0 <= DaysBefore(Runs(ks), j) && DaysBefore(Runs(ks), j) + i < |ks|
    ensures ks[DaysBefore(Runs(ks), j) + i] == Runs(ks)[j].key
  {
    var ks' := ks[..|ks| - 1];
    var r0 := Runs(ks');
    assert Runs(ks) == Tally(r0, ks[|ks| - 1]);
    if j < |r0| && i < r0[j].dayCount {
      TallyPrefix(r0, ks[|ks| - 1], j);
      RunsSegment(ks', j, i);
      assert ks[DaysBefore(r0, j) + i] == ks'[DaysBefore(r0, j) + i];
    } else {
      RunsCounts(ks');
      TallyLast(r0, ks[|ks| - 1], j, i);
      RunsTotal(ks');
    }
  }

  /** Counting one more day leaves the earlier entries' keys and starts as
      they were, and does not shorten them. */
  lemma TallyPrefix(g: seq<MonthCount>, key: MonthKey, j: nat)
    requires j < |g|
    ensures j < |Tally(g, key)|
    ensures Tally(g, key)[j].key == g[j].key && Tally(g, key)[j].dayCount >= g[j].dayCount
    ensures DaysBefore(Tally(g, key), j) == DaysBefore(g, j)
  {
    TallyCases(g, key);
    DaysBeforeAgree(Tally(g, key), g, j);
  }

  /** A day of the counts after one more day that was not a day of the
      counts before is the new day itself, at the end. */
  lemma TallyLast(g: seq<MonthCount>, key: MonthKey, j: nat, i: nat)
    requires forall t :: 0 <= t < |g| ==> g[t].dayCount >= 0
    requires j < |Tally(g, key)| && i < Tally(g, key)[j].dayCount
    requires !(j < |g| && i < g[j].dayCount)
    ensures Tally(g, key)[j].key == key
    ensures 0 <= DaysBefore(Tally(g, key), j) && DaysBefore(Tally(g, key), j) + i == DaysBefore(g, |g|)
  {
    var t := Tally(g, key);
    TallyCases(g, key);
    if g != [] && g[|g| - 1].key == key {
      var m := |g| - 1;
      assert j == m;
      DaysBeforeAgree(t, g, m);
      assert DaysBefore(g, |g|) == DaysBefore(g, m) + g[m].dayCount;
      DaysBeforeMonotone(g, 0, m);
    } else {
      assert j == |g|;
      DaysBeforeAgree(t, g, j);
      DaysBeforeMonotone(g, 0, j);
    }
  }

  /** Neighbouring runs have different keys. */
  lemma {:induction false} RunsAdjacentDiffer(ks: seq<MonthKey>, j: nat)
    requires 0 < j < |Runs(ks)|
    ensures Runs(ks)[j - 1].key != Runs(ks)[j].key
  {
    var ks' := ks[..|ks| - 1];
    var r0 := Runs(ks');
    RunsShape(ks');
    TallyCases(r0, ks[|ks| - 1]);
    if j < |r0| {
      RunsAdjacentDiffer(ks', j);
    }
  }

  // ---------------------------------------------------------------------------
  // Walking through the calendar

  /** Day `d` of month `k` is a calendar date. */
  predicate DayOf(k: MonthKey, d: int) {
    0 <= k.month < 12 && 1 <= d <= DaysInMonth(k.year, k.month)
  }

  /** Day `d1` of month `k1` follows day `d0` of month `k0`: either the month
      stays and the day of the month grows by one, or the month was at its
      last day and a later month begins at its first. */
  predicate NextOf(k0: MonthKey, d0: int, k1: MonthKey, d1: int) {
    && (k0 == k1 ==> d1 == d0 + 1)
    && (k0 != k1 ==> KeyBefore(k0, k1) && d1 == 1 && 0 <= k0.month < 12 && d0 == DaysInMonth(k0.year, k0.month))
  }

  /** `ks` and `ds` are the month keys and the days of the month of
      consecutive days. */
  predicate CalendarWalk(ks: seq<MonthKey>, ds: seq<int>) {
    && |ks| == |ds|
    && (forall i :: 0 <= i < |ks| ==> DayOf(ks[i], ds[i]))
    && (forall i :: 0 <= i < |ks| - 1 ==> NextOf(ks[i], ds[i], ks[i + 1], ds[i + 1]))
  }

  /** Keys that never go back in time. */
  predicate Chronological(ks: seq<MonthKey>) {
    forall i :: 0 < i < |ks| ==> ks[i - 1] == ks[i] || KeyBefore(ks[i - 1], ks[i])
  }

  /** Keys that never go back in time make strictly chronological runs. */
  lemma {:induction false} RunsIncreasing(ks: seq<MonthKey>)
    requires Chronological(ks)
    ensures Increasing(Runs(ks))
  {
    if |ks| > 1 {
      var ks' := ks[..|ks| - 1];
      var x := ks[|ks| - 1];
      var r0 := Runs(ks');
      assert Chronological(ks');
      RunsIncreasing(ks');
      RunsShape(ks');
      TallyCases(r0, x);
      assert ks'[|ks'| - 1] == ks[|ks| - 2];
    }
  }

  lemma WalkChronological(ks: seq<MonthKey>, ds: seq<int>)
    requires CalendarWalk(ks, ds)
    ensures Chronological(ks)
  {
  }

  /** The days of the month of a run are consecutive. */
  lemma {:induction false} RunDays(ks: seq<MonthKey>, ds: seq<int>, j: nat, i: nat)
    requires CalendarWalk(ks, ds)
    requires j < |Runs(ks)| && i < Runs(ks)[j].dayCount
    ensures 0 <= DaysBefore(Runs(ks), j) && DaysBefore(Runs(ks), j) + i < |ks|
    ensures ds[DaysBefore(Runs(ks), j) + i] == ds[DaysBefore(Runs(ks), j)] + i
  {
    RunsSegment(ks, j, i);
    if i > 0 {
      RunDays(ks, ds, j, i - 1);
      RunsSegment(ks, j, i - 1);
    }
  }

  /** Every run after the first starts at the first day of its month. */
  lemma RunStart(ks: seq<MonthKey>, ds: seq<int>, j: nat)
    requires CalendarWalk(ks, ds)
    requires 0 < j < |Runs(ks)|
    ensures 0 < DaysBefore(Runs(ks), j) < |ks|
    ensures ds[DaysBefore(Runs(ks), j)] == 1
  {
    var r := Runs(ks);
    RunsShape(ks);
    RunsAdjacentDiffer(ks, j);
    RunsSegment(ks, j - 1, r[j - 1].dayCount - 1);
    RunsSegment(ks, j, 0);
  }

  /** A run holds at least one and at most as many days as its month, and
      every run strictly between the first and the last holds the whole month. */
  lemma RunLength(ks: seq<MonthKey>, ds: seq<int>, j: nat)
    requires CalendarWalk(ks, ds)
    requires j < |Runs(ks)|
    ensures 0 <= Runs(ks)[j].key.month < 12
    ensures 1 <= Runs(ks)[j].dayCount <= DaysInMonth(Runs(ks)[j].key.year, Runs(ks)[j].key.month)
    ensures 0 < j < |Runs(ks)| - 1 ==>
              Runs(ks)[j].dayCount == DaysInMonth(Runs(ks)[j].key.year, Runs(ks)[j].key.month)
  {
    var r := Runs(ks);
    RunsShape(ks);
    RunDays(ks, ds, j, r[j].dayCount - 1);
    RunsSegment(ks, j, r[j].dayCount - 1);
    if 0 < j < |r| - 1 {
      RunStart(ks, ds, j);
      RunsAdjacentDiffer(ks, j + 1);
      RunsSegment(ks, j + 1, 0);
    }
  }

  // ---------------------------------------------------------------------------
  // Reference definition: the months of a range of days

  /** The month keys of the `count` consecutive days from day `start`. */
  function DayKeys(start: int, count: nat): seq<MonthKey> {
    seq(count, i => KeyOf(start + i))
  }

  /** The days of the month of the `count` consecutive days from day `start`. */
  function DayNumbers(start: int, count: nat): seq<int> {
    seq(count, i => CivilFromDays(start + i).day)
  }

  /** The month counts of the `count` consecutive days from day `start`, in
      the order the months are met (none when `count` is not positive). */
  function Group(start: int, count: int): seq<MonthCount> {
    if count <= 0 then [] else Runs(DayKeys(start, count))
  }

  /** Entry `i` of the range sequences is day `start + i`. */
  lemma RangeAt(start: int, count: nat, i: nat)
    requires i < count
    ensures DayKeys(start, count)[i] == KeyOf(start + i)
    ensures DayNumbers(start, count)[i] == CivilFromDays(start + i).day
  {
  }

  /** Entry `i + 1` of the range sequences is the day after `start + i`. */
  lemma RangeAtNext(start: int, count: nat, i: nat)
    requires i + 1 < count
    ensures DayKeys(start, count)[i + 1] == KeyOf(start + i + 1)
    ensures DayNumbers(start, count)[i + 1] == CivilFromDays(start + i + 1).day
  {
  }

  /** KeyStep, for the days `n` and `n + 1` given as `k0, d0` and `k1, d1`. */
  lemma DayStep(n: int, k0: MonthKey, d0: int, k1: MonthKey, d1: int)
    requires k0 == KeyOf(n) && d0 == CivilFromDays(n).day
    requires k1 == KeyOf(n + 1) && d1 == CivilFromDays(n + 1).day
    ensures NextOf(k0, d0, k1, d1)
  {
    KeyStep(n);
  }

  /** The month keys of consecutive days never go back in time. */
  lemma DayKeysChronological(start: int, count: nat)
    ensures Chronological(DayKeys(start, count))
  {
    RangeWalk(start, count);
    WalkChronological(DayKeys(start, count), DayNumbers(start, count));
  }

  /** The days of a range walk through the calendar. */
  lemma RangeWalk(start: int, count: nat)
    ensures CalendarWalk(DayKeys(start, count), DayNumbers(start, count))
  {
    RangeDates(start, count);
    RangeSteps(start, count);
  }

  lemma RangeDates(start: int, count: nat)
    ensures forall i :: 0 <= i < count ==> DayOf(DayKeys(start, count)[i], DayNumbers(start, count)[i])
  {
    forall i | 0 <= i < count
      ensures DayOf(DayKeys(start, count)[i], DayNumbers(start, count)[i])
    {
      RangeAt(start, count, i);
      CivilFromDaysInverse(start + i);
    }
  }

  lemma RangeSteps(start: int, count: nat)
    ensures forall i :: 0 <= i < count - 1 ==>
              NextOf(DayKeys(start, count)[i], DayNumbers(start, count)[i], DayKeys(start, count)[i + 1], DayNumbers(start, count)[i + 1])
  {
    forall i | 0 <= i < count - 1
      ensures NextOf(DayKeys(start, count)[i], DayNumbers(start, count)[i], DayKeys(start, count)[i + 1], DayNumbers(start, count)[i + 1])
    {
      RangeStepAt(start, count, i);
    }
  }

  lemma RangeStepAt(start: int, count: nat, i: nat)
    requires i + 1 < count
    ensures NextOf(DayKeys(start, count)[i], DayNumbers(start, count)[i], DayKeys(start, count)[i + 1], DayNumbers(start, count)[i + 1])
  {
    var k0, d0 := DayKeys(start, count)[i], DayNumbers(start, count)[i];
    var k1, d1 := DayKeys(start, count)[i + 1], DayNumbers(start, count)[i + 1];
    RangeAt(start, count, i);
    RangeAtNext(start, count, i);
    DayStep(start + i, k0, d0, k1, d1);
  }

  /** The day counts of a range add up to its length, none is zero, there
      are no more months than days, and the last month is that of the last day. */
  lemma GroupBasics(start: int, n: nat)
    ensures Group(start, n) == [] <==> n == 0
    ensures n > 0 ==> Group(start, n)[|Group(start, n)| - 1].key == KeyOf(start + n - 1)
    ensures DaysBefore(Group(start, n), |Group(start, n)|) == n
    ensures |Group(start, n)| <= n
    ensures forall j :: 0 <= j < |Group(start, n)| ==> Group(start, n)[j].dayCount >= 1
  {
    RunsShape(DayKeys(start, n));
    RunsTotal(DayKeys(start, n));
  }

  /** The months of a range are in strictly chronological order, so no month
      appears twice. */
  lemma GroupIncreasing(start: int, n: nat)
    ensures Increasing(Group(start, n))
  {
    RangeWalk(start, n);
    WalkChronological(DayKeys(start, n), DayNumbers(start, n));
    RunsIncreasing(DayKeys(start, n));
  }

  /** Month `j` covers the `dayCount` consecutive days that follow the days
      of the months before it: each of them lies in month `key`, and their
      days of the month are consecutive. */
  lemma GroupSegment(start: int, n: nat, j: nat, i: nat)
    requires j < |Group(start, n)| && i < Group(start, n)[j].dayCount
    ensures 0 <= DaysBefore(Group(start, n), j) && DaysBefore(Group(start, n), j) + i < n
    ensures KeyOf(start + (DaysBefore(Group(start, n), j) + i)) == Group(start, n)[j].key
    ensures CivilFromDays(start + (DaysBefore(Group(start, n), j) + i)).day ==
            CivilFromDays(start + DaysBefore(Group(start, n), j)).day + i
  {
    var g := Group(start, n);
    assert g == Runs(DayKeys(start, n));
    var p := DaysBefore(g, j);
    RangeRun(start, n, j, i);
    SegmentAt(start, n, p, i, g[j].key);
  }

  /** Entries `p` and `p + i` of the range sequences as days of the calendar. */
  lemma SegmentAt(start: int, n: nat, p: nat, i: nat, key: MonthKey)
    requires p + i < n
    requires DayKeys(start, n)[p + i] == key
    requires DayNumbers(start, n)[p + i] == DayNumbers(start, n)[p] + i
    ensures KeyOf(start + (p + i)) == key
    ensures CivilFromDays(start + (p + i)).day == CivilFromDays(start + p).day + i
  {
    RangeAt(start, n, p);
    RangeAt(start, n, p + i);
  }

  /** GroupSegment on the key and day sequences of the range. */
  lemma RangeRun(start: int, n: nat, j: nat, i: nat)
    requires j < |Runs(DayKeys(start, n))| && i < Runs(DayKeys(start, n))[j].dayCount
    ensures 0 <= DaysBefore(Runs(DayKeys(start, n)), j) && DaysBefore(Runs(DayKeys(start, n)), j) + i < n
    ensures DayKeys(start, n)[DaysBefore(Runs(DayKeys(start, n)), j) + i] == Runs(DayKeys(start, n))[j].key
    ensures DayNumbers(start, n)[DaysBefore(Runs(DayKeys(start, n)), j) + i] ==
            DayNumbers(start, n)[DaysBefore(Runs(DayKeys(start, n)), j)] + i
  {
    RangeWalk(start, n);
    RunsSegment(DayKeys(start, n), j, i);
    RunDays(DayKeys(start, n), DayNumbers(start, n), j, i);
  }

  /** Every month after the first starts on the first day of its month. */
  lemma GroupMonthStart(start: int, n: nat, j: nat)
    requires 0 < j < |Group(start, n)|
    ensures 0 < DaysBefore(Group(start, n), j) < n
    ensures CivilFromDays(start + DaysBefore(Group(start, n), j)).day == 1
  {
    RangeWalk(start, n);
    RunStart(DayKeys(start, n), DayNumbers(start, n), j);
  }

  /** A month holds at least one and at most as many days as the calendar
      month has, and every month strictly between the first and the last is
      counted in full. */
  lemma DayCountBounds(start: int, n: nat, j: nat)
    requires j < |Group(start, n)|
    ensures 0 <= Group(start, n)[j].key.month < 12
    ensures 1 <= Group(start, n)[j].dayCount <= DaysInMonth(Group(start, n)[j].key.year, Group(start, n)[j].key.month)
    ensures 0 < j < |Group(start, n)| - 1 ==>
              Group(start, n)[j].dayCount == DaysInMonth(Group(start, n)[j].key.year, Group(start, n)[j].key.month)
  {
    RangeWalk(start, n);
    RunLength(DayKeys(start, n), DayNumbers(start, n), j);
  }

  // ---------------------------------------------------------------------------
  // The counting loop

  /** The insertion-ordered keys and the counts of the month map hold the
      entries `g`. */
  ghost predicate Tallied(keys: seq<MonthKey>, counts: map<MonthKey, int>, g: seq<MonthCount>) {
    && |keys| == |g|
    && (forall k :: k in counts <==> k in keys)
    && (forall j :: 0 <= j < |g| ==> keys[j] == g[j].key && keys[j] in counts && counts[keys[j]] == g[j].dayCount)
  }

  /** `monthMap.set(key, (monthMap.get(key) || 0) + 1)` counts one more day
      of `key`, provided the day is in the last month met or a later one. */
  lemma TallyStep(g: seq<MonthCount>, keys: seq<MonthKey>, counts: map<MonthKey, int>, key: MonthKey, previous: int)
    requires Tallied(keys, counts, g)
    requires Increasing(g)
    requires g != [] ==> g[|g| - 1].key == key || KeyBefore(g[|g| - 1].key, key)
    requires previous == if key in counts then counts[key] else 0
    ensures Tallied(if key in counts then keys else keys + [key], counts[key := previous + 1], Tally(g, key))
  {
    TallyCases(g, key);
    if key in counts {
      var p :| 0 <= p < |keys| && keys[p] == key;
      if p < |g| - 1 {
        assert false;
      }
    } else {
      assert forall j :: 0 <= j < |g| ==> g[j].key != key;
    }
  }

  /** Counting the day of month `ks[i]` keeps the map equal to the counts
      of the first `i + 1` keys. */
  lemma CountStep(ks: seq<MonthKey>, i: nat, keys: seq<MonthKey>, counts: map<MonthKey, int>, key: MonthKey, previous: int)
    requires Chronological(ks) && i < |ks| && key == ks[i]
    requires previous == if key in counts then counts[key] else 0
    requires Tallied(keys, counts, Runs(ks[..i]))
    ensures Tallied(if key in counts then keys else keys + [key], counts[key := previous + 1], Runs(ks[..i + 1]))
  {
    RunsPrefix(ks, i);
    TallyStep(Runs(ks[..i]), keys, counts, key, previous);
  }

  /** One round of the timeline's counting loop, on the day `i` days after `start`. */
  lemma DayCountStep(start: int, n: nat, i: nat, keys: seq<MonthKey>, counts: map<MonthKey, int>, key: MonthKey, previous: int)
    requires i < n && key == KeyOf(start + i)
    requires previous == if key in counts then counts[key] else 0
    requires Tallied(keys, counts, Runs(DayKeys(start, n)[..i]))
    ensures Tallied(if key in counts then keys else keys + [key], counts[key := previous + 1], Runs(DayKeys(start, n)[..i + 1]))
  {
    DayKeysChronological(start, n);
    RangeAt(start, n, i);
    CountStep(DayKeys(start, n), i, keys, counts, key, previous);
  }

  /** The runs of a prefix of chronological keys are strictly chronological,
      the next key does not go back before their last month, and counting
      it extends them to the runs of the longer prefix. */
  lemma RunsPrefix(ks: seq<MonthKey>, i: nat)
    requires Chronological(ks) && i < |ks|
    ensures Increasing(Runs(ks[..i]))
    ensures Runs(ks[..i]) != [] ==>
              Runs(ks[..i])[|Runs(ks[..i])| - 1].key == ks[i] || KeyBefore(Runs(ks[..i])[|Runs(ks[..i])| - 1].key, ks[i])
    ensures Runs(ks[..i + 1]) == Tally(Runs(ks[..i]), ks[i])
  {
    PrefixChronological(ks, i);
    RunsIncreasing(ks[..i]);
    PrefixLastRun(ks, i);
    PrefixRuns(ks, i);
  }

  lemma PrefixChronological(ks: seq<MonthKey>, i: nat)
    requires Chronological(ks) && i <= |ks|
    ensures Chronological(ks[..i])
  {
  }

  lemma PrefixLastRun(ks: seq<MonthKey>, i: nat)
    requires Chronological(ks) && i < |ks|
    ensures Runs(ks[..i]) != [] ==>
              Runs(ks[..i])[|Runs(ks[..i])| - 1].key == ks[i] || KeyBefore(Runs(ks[..i])[|Runs(ks[..i])| - 1].key, ks[i])
  {
    RunsShape(ks[..i]);
    if i > 0 {
      assert ks[..i][i - 1] == ks[i - 1];
    }
  }

  lemma PrefixRuns(ks: seq<MonthKey>, i: nat)
    requires i < |ks|
    ensures Runs(ks[..i + 1]) == Tally(Runs(ks[..i]), ks[i])
  {
    assert ks[..i + 1][..i] == ks[..i];
  }

  /** The month map of the timeline and of its header: walks `days` days from
      `startDate`, counting the days of each month, and lists the map's
      entries in insertion order. */
  method CountMonths(startDate: int, days: int) returns (entries: seq<MonthCount>)
    ensures entries == Group(startDate, days)
  {
    ghost var n := if days < 0 then 0 else days;
    var keys: seq<MonthKey> := [];
    var counts: map<MonthKey, int> := map[];
    var current := startDate;
    var i := 0;
    while i < days
      invariant 0 <= i <= n
      invariant current == startDate + i
      invariant Tallied(keys, counts, Runs(DayKeys(startDate, n)[..i]))
    {
      var monthKey := KeyOf(current);
      var previous := if monthKey in counts then counts[monthKey] else 0;
      DayCountStep(startDate, n, i, keys, counts, monthKey, previous);
      // `Map.set` appends a key it does not hold yet and keeps the order otherwise.
      keys := if monthKey in counts then keys else keys + [monthKey];
      counts := counts[monthKey := previous + 1];
      SetDateNext(current);
      current := SetDate(current, CivilFromDays(current).day + 1);
      i := i + 1;
    }
    CountedRange(startDate, days, n, keys, counts);
    entries := Entries(keys, counts);
  }

  /** The entries of the map in insertion order: `Array.from(monthMap.entries())`. */
  function Entries(keys: seq<MonthKey>, counts: map<MonthKey, int>): (entries: seq<MonthCount>)
    requires forall j :: 0 <= j < |keys| ==> keys[j] in counts
    ensures |entries| == |keys|
    ensures forall j :: 0 <= j < |keys| ==> entries[j] == MonthCount(keys[j], counts[keys[j]])
  {
    seq(|keys|, j requires 0 <= j < |keys| => MonthCount(keys[j], counts[keys[j]]))
  }

  /** After the last day, the map holds the months of the whole range. */
  lemma CountedRange(start: int, days: int, n: nat, keys: seq<MonthKey>, counts: map<MonthKey, int>)
    requires n == if days < 0 then 0 else days
    requires Tallied(keys, counts, Runs(DayKeys(start, n)[..n]))
    ensures forall j :: 0 <= j < |keys| ==> keys[j] in counts
    ensures Entries(keys, counts) == Group(start, days)
  {
    assert DayKeys(start, n)[..n] == DayKeys(start, n);
    TalliedEntries(keys, counts, Runs(DayKeys(start, n)));
  }

  /** The entries of a map that holds `g`, in insertion order, are `g`. */
  lemma TalliedEntries(keys: seq<MonthKey>, counts: map<MonthKey, int>, g: seq<MonthCount>)
    requires Tallied(keys, counts, g)
    ensures forall j :: 0 <= j < |keys| ==> keys[j] in counts
    ensures Entries(keys, counts) == g
  {
  }
}
