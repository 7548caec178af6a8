/** Greedy lane assignment (`assignLanes`): items are sorted by start date with
    a stable sort, then each item goes into the first lane whose last item ends
    strictly before the item starts, or into a new lane when none does.

    Dates are day ordinals (see module Calendar): comparing two `Date` values
    parsed from day-only ISO strings is comparing their ordinals. */
module Lanes {

  /** A timeline item; `start` and `end` are day ordinals, both inclusive. */
  datatype Item = Item(id: int, start: int, end: int, name: string)

  predicate ValidItem(x: Item) {
    x.start <= x.end
  }

  predicate SortedByStart(s: seq<Item>) {
    forall i, j :: 0 <= i < j < |s| ==> s[i].start <= s[j].start
  }

  /** The items of `s` whose start is `day`, in their order in `s`. */
  function WithStart(s: seq<Item>, day: int): seq<Item> {
    if s == [] then []
    else WithStart(s[..|s| - 1], day) + (if s[|s| - 1].start == day then [s[|s| - 1]] else [])
  }

  /** `a` can be obtained from `b` by deleting elements: the relative order of
      the kept elements is that of `b`. */
  predicate IsSubseq(a: seq<Item>, b: seq<Item>)
    decreases |b|
  {
    a == [] ||
    (b != [] &&
      ((a[|a| - 1] == b[|b| - 1] && IsSubseq(a[..|a| - 1], b[..|b| - 1])) || IsSubseq(a, b[..|b| - 1])))
  }

  // ---------------------------------------------------------------------------
  // The stable sort of a copy by start date

  /** `x` inserted into `t` after every element whose start is not later than
      its own: one step of a stable insertion sort. */
  function InsertByStart(t: seq<Item>, x: Item): (r: seq<Item>)
    ensures multiset(r) == multiset(t) + multiset{x}
    ensures SortedByStart(t) ==> SortedByStart(r)
    decreases |t|
  {
    if t == [] || t[|t| - 1].start <= x.start then
      t + [x]
    else
      var last := t[|t| - 1];
      var t' := t[..|t| - 1];
      assert t == t' + [last];
      var r' := InsertByStart(t', x);
      InsertBelow(t', x, last, r');
      r' + [last]
  }

  /** What the recursive case of InsertByStart needs: every element of the
      shorter result starts no later than the element put after it. */
  lemma InsertBelow(t': seq<Item>, x: Item, last: Item, r': seq<Item>)
    requires multiset(r') == multiset(t') + multiset{x}
    requires SortedByStart(t') ==> SortedByStart(r')
    requires x.start < last.start
    ensures SortedByStart(t' + [last]) ==> SortedByStart(r' + [last])
  {
    var t := t' + [last];
    if SortedByStart(t) {
      assert t[|t'|] == last;
      assert SortedByStart(t') by {
        forall i, j | 0 <= i < j < |t'| ensures t'[i].start <= t'[j].start {
          assert t[i] == t'[i] && t[j] == t'[j];
        }
      }
      forall i | 0 <= i < |r'| ensures r'[i].start <= last.start {
        assert r'[i] in multiset(r');
        if r'[i] != x {
          assert r'[i] in multiset(t');
          var j :| 0 <= j < |t'| && t'[j] == r'[i];
          assert t[j] == t'[j];
        }
      }
    }
  }

  /** `[...items].sort((a, b) => a.start - b.start)`: ascending by start, a
      permutation of the input, equal starts in input order (see
      SortByStartStable). The input is a value and is left as it was. */
  function SortByStart(items: seq<Item>): (sorted: seq<Item>)
    ensures SortedByStart(sorted)
    ensures multiset(sorted) == multiset(items)
  {
    if items == [] then []
    else
      assert items == items[..|items| - 1] + [items[|items| - 1]];
      InsertByStart(SortByStart(items[..|items| - 1]), items[|items| - 1])
  }

  lemma WithStartAppend(s: seq<Item>, x: Item, day: int)
    ensures WithStart(s + [x], day) == WithStart(s, day) + (if x.start == day then [x] else [])
  {
    assert (s + [x])[..|s|] == s;
  }

  lemma {:induction false} InsertByStartStable(t: seq<Item>, x: Item, day: int)
    ensures WithStart(InsertByStart(t, x), day) == WithStart(t, day) + (if x.start == day then [x] else [])
    decreases |t|
  {
    if t == [] || t[|t| - 1].start <= x.start {
      WithStartAppend(t, x, day);
    } else {
      var t' := t[..|t| - 1];
      InsertByStartStable(t', x, day);
      InsertByStartStableStep(t, x, day);
    }
  }

  /** The recursive case of InsertByStartStable, given the claim for `t` without its last element. */
  lemma InsertByStartStableStep(t: seq<Item>, x: Item, day: int)
    requires t != [] && t[|t| - 1].start > x.start
    requires WithStart(InsertByStart(t[..|t| - 1], x), day) ==
             WithStart(t[..|t| - 1], day) + (if x.start == day then [x] else [])
    ensures WithStart(InsertByStart(t, x), day) == WithStart(t, day) + (if x.start == day then [x] else [])
  {
    var last := t[|t| - 1];
    var t' := t[..|t| - 1];
    InsertByStartLast(t, x);
    WithStartAppend(InsertByStart(t', x), last, day);
    assert WithStart(t, day) == WithStart(t', day) + (if last.start == day then [last] else []);
    AppendSwap(WithStart(t', day), if x.start == day then [x] else [], if last.start == day then [last] else []);
  }

  /** When `x` starts before the last element, that element stays last. */
  lemma InsertByStartLast(t: seq<Item>, x: Item)
    requires t != [] && t[|t| - 1].start > x.start
    ensures InsertByStart(t, x) == InsertByStart(t[..|t| - 1], x) + [t[|t| - 1]]
  {
  }

  lemma AppendSwap(w: seq<Item>, a: seq<Item>, b: seq<Item>)
    requires a == [] || b == []
    ensures (w + a) + b == (w + b) + a
  {
    if a == [] {
      assert w + a == w;
    } else {
      assert w + b == w;
    }
  }

  /** Stability: for every start date, the items with that start come out of
      the sort in exactly the order they went in. */
  lemma {:induction false} SortByStartStable(items: seq<Item>, day: int)
    ensures WithStart(SortByStart(items), day) == WithStart(items, day)
    decreases |items|
  {
    if items != [] {
      var init := items[..|items| - 1];
      var x := items[|items| - 1];
      assert items == init + [x];
      SortByStartStable(init, day);
      InsertByStartStable(SortByStart(init), x, day);
      WithStartAppend(init, x, day);
    }
  }

  /** Sorting a list that is already in start order leaves it unchanged. */
  lemma {:induction false} SortByStartOfSorted(s: seq<Item>)
    requires SortedByStart(s)
    ensures SortByStart(s) == s
    decreases |s|
  {
    if s != [] {
      var init := s[..|s| - 1];
      assert s == init + [s[|s| - 1]];
      SortByStartOfSorted(init);
    }
  }

  /** No item of `s` starts on `day`, so none is selected. */
  lemma {:induction false} WithStartNone(s: seq<Item>, day: int)
    requires forall i :: 0 <= i < |s| ==> s[i].start < day
    ensures WithStart(s, day) == []
    decreases |s|
  {
    if s != [] {
      WithStartNone(s[..|s| - 1], day);
    }
  }

  /** The last item is selected for its own start day. */
  lemma WithStartOfLast(s: seq<Item>)
    requires s != []
    ensures WithStart(s, s[|s| - 1].start) != []
  {
  }

  /** `s` and `t` hold the same items of every start day, in the same order. */
  ghost predicate SameStarts(s: seq<Item>, t: seq<Item>) {
    forall day :: WithStart(s, day) == WithStart(t, day)
  }

  /** Lists in start order with the same items of every start day end
      with the same item. */
  lemma SameStartsSameLast(s: seq<Item>, t: seq<Item>)
    requires SortedByStart(s) && SortedByStart(t) && s != [] && t != []
    requires SameStarts(s, t)
    ensures s[|s| - 1] == t[|t| - 1]
  {
    var x, y := s[|s| - 1], t[|t| - 1];
    if x.start < y.start {
      WithStartOfLast(t);
      WithStartNone(s, y.start);
      assert false;
    }
    if y.start < x.start {
      WithStartOfLast(s);
      WithStartNone(t, x.start);
      assert false;
    }
    var w := WithStart(s, x.start);
    assert w == WithStart(s[..|s| - 1], x.start) + [x];
    assert w == WithStart(t[..|t| - 1], x.start) + [y];
    assert x == w[|w| - 1] == y;
  }

  /** Dropping the same last item keeps the items of every start day equal. */
  lemma SameStartsOfInit(s: seq<Item>, t: seq<Item>)
    requires s != [] && t != [] && s[|s| - 1] == t[|t| - 1]
    requires SameStarts(s, t)
    ensures SameStarts(s[..|s| - 1], t[..|t| - 1])
  {
    var s', t', x := s[..|s| - 1], t[..|t| - 1], s[|s| - 1];
    forall day
      ensures WithStart(s', day) == WithStart(t', day)
    {
      var w := WithStart(s, day);
      assert w == WithStart(t, day);
      if day == x.start {
        assert w == WithStart(s', day) + [x] == WithStart(t', day) + [x];
        assert w[..|w| - 1] == WithStart(s', day) == WithStart(t', day);
      } else {
        assert w == WithStart(s', day) == WithStart(t', day);
      }
    }
  }

  /** A list in start order is fixed by its items of each start day. */
  lemma {:induction false} SortedDeterminedByStarts(s: seq<Item>, t: seq<Item>)
    requires SortedByStart(s) && SortedByStart(t)
    requires SameStarts(s, t)
    ensures s == t
    decreases |s| + |t|
  {
    if s == [] || t == [] {
      if s != t {
        if s != [] { WithStartOfLast(s); } else { WithStartOfLast(t); }
        assert false;
      }
    } else {
      SameStartsSameLast(s, t);
      SameStartsOfInit(s, t);
      SortedDeterminedByStarts(s[..|s| - 1], t[..|t| - 1]);
      assert s == s[..|s| - 1] + [s[|s| - 1]];
      assert t == t[..|t| - 1] + [t[|t| - 1]];
    }
  }

  // ---------------------------------------------------------------------------
  // First-fit packing, as functions

  predicate NonEmptyLanes(lanes: seq<seq<Item>>) {
    forall k :: 0 <= k < |lanes| ==> lanes[k] != []
  }

  /** The end of the last item of a lane. */
  function LastEnd(lane: seq<Item>): int
    requires lane != []
  {
    lane[|lane| - 1].end
  }

  /** Consecutive items of the lane do not overlap: each starts strictly after
      the previous one ends. */
  predicate NoOverlap(lane: seq<Item>) {
    forall j :: 0 < j < |lane| ==> lane[j].start > lane[j - 1].end
  }

  /** The index of the first lane whose last item ends strictly before `item`
      starts, or `|lanes|` when there is none. */
  function FirstFit(lanes: seq<seq<Item>>, item: Item): (k: nat)
    requires NonEmptyLanes(lanes)
    ensures k <= |lanes|
    ensures k < |lanes| ==> item.start > LastEnd(lanes[k])
    ensures forall j :: 0 <= j < k ==> item.start <= LastEnd(lanes[j])
    decreases |lanes|
  {
    if lanes == [] then 0
    else if item.start > LastEnd(lanes[0]) then 0
    else 1 + FirstFit(lanes[1..], item)
  }

  /** The first-fit index is determined by the two first-fit conditions. */
  lemma FirstFitUnique(lanes: seq<seq<Item>>, item: Item, j: nat)
    requires NonEmptyLanes(lanes) && j <= |lanes|
    requires j < |lanes| ==> item.start > LastEnd(lanes[j])
    requires forall t :: 0 <= t < j ==> item.start <= LastEnd(lanes[t])
    ensures FirstFit(lanes, item) == j
  {
  }

  /** One iteration of the outer loop: `item` joins the first fitting lane,
      or opens a new lane at the end. */
  function Place(lanes: seq<seq<Item>>, item: Item): (r: seq<seq<Item>>)
    requires NonEmptyLanes(lanes)
  {
    var k := FirstFit(lanes, item);
    if k < |lanes| then lanes[k := lanes[k] + [item]] else lanes + [[item]]
  }

  /** The lanes after placing every item of `sorted`, in order. */
  function Pack(sorted: seq<Item>): (lanes: seq<seq<Item>>)
    ensures NonEmptyLanes(lanes)
    ensures |lanes| <= |sorted|
    ensures forall k :: 0 <= k < |lanes| ==> NoOverlap(lanes[k])
  {
    if sorted == [] then []
    else
      var lanes' := Pack(sorted[..|sorted| - 1]);
      var item := sorted[|sorted| - 1];
      var k := FirstFit(lanes', item);
      assert k < |lanes'| ==> NoOverlap(lanes'[k] + [item]);
      Place(lanes', item)
  }

  /** Packing one more item of the sequence is one more Place. */
  lemma PackStep(sorted: seq<Item>, i: nat)
    requires i < |sorted|
    ensures Pack(sorted[..i + 1]) == Place(Pack(sorted[..i]), sorted[i])
  {
    assert sorted[..i + 1][..i] == sorted[..i];
  }

  /** All items of all lanes, lane after lane. */
  function Flatten(lanes: seq<seq<Item>>): seq<Item> {
    if lanes == [] then [] else Flatten(lanes[..|lanes| - 1]) + lanes[|lanes| - 1]
  }

  // ---------------------------------------------------------------------------
  // The imperative algorithm

  /** `assignLanes`: sorts a copy of the items, then places them one by one
      in sorted order. */
  method AssignLanes(items: seq<Item>) returns (lanes: seq<seq<Item>>)
    ensures lanes == Pack(SortByStart(items))
    ensures NonEmptyLanes(lanes) && |lanes| <= |items|
    ensures forall k :: 0 <= k < |lanes| ==> NoOverlap(lanes[k])
    ensures multiset(Flatten(lanes)) == multiset(items)
  {
    var sortedItems := SortByStart(items);
    lanes := [];
    for i := 0 to |sortedItems|
      invariant lanes == Pack(sortedItems[..i])
    {
      var item := sortedItems[i];
      PackStep(sortedItems, i);
      lanes := PlaceItem(lanes, item);
    }
    assert sortedItems[..|sortedItems|] == sortedItems;
    PackPartition(sortedItems);
  }

  /** The body of the outer loop of `assignLanes`: scan the lanes in order,
      push the item onto the first lane whose last item ends strictly before
      the item starts and stop there; if no lane took it, push a new lane
      holding only the item. */
  method PlaceItem(lanes0: seq<seq<Item>>, item: Item) returns (lanes: seq<seq<Item>>)
    requires NonEmptyLanes(lanes0)
    ensures lanes == Place(lanes0, item)
  {
    lanes := lanes0;
    var placed := false;
    var j := 0;
    while j < |lanes|
      invariant 0 <= j <= |lanes|
      invariant lanes == lanes0 && !placed
      invariant forall t :: 0 <= t < j ==> item.start <= LastEnd(lanes[t])
    {
      var lane := lanes[j];
      var lastItemInLane := lane[|lane| - 1];
      if item.start > lastItemInLane.end {
        FirstFitUnique(lanes, item, j);
        lanes := lanes[j := lane + [item]];
        placed := true;
        break;
      }
      j := j + 1;
    }
    if !placed {
      FirstFitUnique(lanes, item, j);
      lanes := lanes + [[item]];
    }
  }

  // ---------------------------------------------------------------------------
  // Properties of the packing

  lemma {:induction false} FlattenUpdate(lanes: seq<seq<Item>>, k: nat, x: Item)
    requires k < |lanes|
    ensures multiset(Flatten(lanes[k := lanes[k] + [x]])) == multiset(Flatten(lanes)) + multiset{x}
    decreases |lanes|
  {
    var lanes' := lanes[k := lanes[k] + [x]];
    var n := |lanes| - 1;
    if k < n {
      assert lanes'[..n] == lanes[..n][k := lanes[k] + [x]];
      FlattenUpdate(lanes[..n], k, x);
    } else {
      assert lanes'[..n] == lanes[..n];
    }
  }

  /** The lanes partition the items: every item is in exactly as many lanes
      as it occurs in the input (once, for distinct items), so the lane sizes
      add up to the number of items. */
  lemma {:induction false} PackPartition(sorted: seq<Item>)
    ensures multiset(Flatten(Pack(sorted))) == multiset(sorted)
    ensures |Flatten(Pack(sorted))| == |sorted|
  {
    if sorted != [] {
      var init := sorted[..|sorted| - 1];
      var x := sorted[|sorted| - 1];
      assert sorted == init + [x];
      PackPartition(init);
      var lanes := Pack(init);
      var k := FirstFit(lanes, x);
      if k < |lanes| {
        FlattenUpdate(lanes, k, x);
      } else {
        assert (lanes + [[x]])[..|lanes|] == lanes;
      }
    }
    assert |multiset(Flatten(Pack(sorted)))| == |multiset(sorted)|;
  }

  /** Every item of the `k`-th lane occurs in the flattened lanes. */
  lemma {:induction false} FlattenContains(lanes: seq<seq<Item>>, k: nat, p: nat)
    requires k < |lanes| && p < |lanes[k]|
    ensures lanes[k][p] in multiset(Flatten(lanes))
    decreases |lanes|
  {
    var n := |lanes| - 1;
    if k < n {
      assert lanes[..n][k] == lanes[k];
      FlattenContains(lanes[..n], k, p);
    }
  }

  lemma {:induction false} WithStartOfSubseq(a: seq<Item>, b: seq<Item>, day: int)
    requires IsSubseq(a, b)
    ensures IsSubseq(WithStart(a, day), WithStart(b, day))
    decreases |b|
  {
    if a != [] {
      var b' := b[..|b| - 1];
      var y := b[|b| - 1];
      assert b == b' + [y];
      WithStartAppend(b', y, day);
      if a[|a| - 1] == y && IsSubseq(a[..|a| - 1], b') {
        var a' := a[..|a| - 1];
        assert a == a' + [y];
        WithStartOfSubseq(a', b', day);
        WithStartAppend(a', y, day);
        if y.start == day {
          var wa, wb := WithStart(a, day), WithStart(b, day);
          assert wa == WithStart(a', day) + [y] && wb == WithStart(b', day) + [y];
          assert wa[..|wa| - 1] == WithStart(a', day) && wb[..|wb| - 1] == WithStart(b', day);
          assert wa[|wa| - 1] == wb[|wb| - 1];
        } else {
          assert WithStart(a', day) + [] == WithStart(a', day);
          assert WithStart(b', day) + [] == WithStart(b', day);
        }
      } else {
        WithStartOfSubseq(a, b', day);
        if y.start == day {
          assert (WithStart(b', day) + [y])[..|WithStart(b', day)|] == WithStart(b', day);
        } else {
          assert WithStart(b', day) + [] == WithStart(b', day);
        }
      }
    }
  }

  lemma {:induction false} SubseqMembers(a: seq<Item>, b: seq<Item>, y: Item)
    requires IsSubseq(a, b) && y in a
    ensures y in b
    decreases |b|
  {
    var b' := b[..|b| - 1];
    assert b == b' + [b[|b| - 1]];
    if a[|a| - 1] == b[|b| - 1] && IsSubseq(a[..|a| - 1], b') {
      if y != a[|a| - 1] {
        assert a == a[..|a| - 1] + [a[|a| - 1]];
        SubseqMembers(a[..|a| - 1], b', y);
      }
    } else {
      SubseqMembers(a, b', y);
    }
  }

  lemma {:induction false} SubseqOfSortedIsSorted(a: seq<Item>, b: seq<Item>)
    requires IsSubseq(a, b) && SortedByStart(b)
    ensures SortedByStart(a)
    decreases |b|
  {
    if a != [] {
      var b' := b[..|b| - 1];
      var y := b[|b| - 1];
      if a[|a| - 1] == y && IsSubseq(a[..|a| - 1], b') {
        var a' := a[..|a| - 1];
        SubseqOfSortedIsSorted(a', b');
        forall i | 0 <= i < |a'| ensures a'[i].start <= y.start {
          SubseqMembers(a', b', a'[i]);
        }
      } else {
        SubseqOfSortedIsSorted(a, b');
      }
    }
  }

  /** Each lane keeps the order of the sequence it was packed from. */
  lemma {:induction false} PackLanesAreSubsequences(sorted: seq<Item>)
    ensures forall k :: 0 <= k < |Pack(sorted)| ==> IsSubseq(Pack(sorted)[k], sorted)
  {
    if sorted != [] {
      var init := sorted[..|sorted| - 1];
      var x := sorted[|sorted| - 1];
      PackLanesAreSubsequences(init);
      var lanes := Pack(init);
      var k0 := FirstFit(lanes, x);
      forall k | 0 <= k < |Pack(sorted)| ensures IsSubseq(Pack(sorted)[k], sorted) {
        var lane := Pack(sorted)[k];
        if k < |lanes| && k != k0 {
          assert lane == lanes[k];
        } else if k < |lanes| {
          assert lane == lanes[k] + [x];
          assert lane[..|lane| - 1] == lanes[k];
        } else {
          assert lane == [x];
        }
      }
    }
  }

  /** Each lane of `assignLanes` is in non-decreasing start order. */
  lemma AssignedLanesSorted(items: seq<Item>)
    ensures forall k :: 0 <= k < |Pack(SortByStart(items))| ==> SortedByStart(Pack(SortByStart(items))[k])
  {
    var sorted := SortByStart(items);
    var lanes := Pack(sorted);
    PackLanesAreSubsequences(sorted);
    forall k | 0 <= k < |lanes| ensures SortedByStart(lanes[k]) {
      SubseqOfSortedIsSorted(lanes[k], sorted);
    }
  }

  /** Within a lane of `assignLanes`, items with the same start appear in the
      order they have in the input: the stable sort keeps them in input order
      and packing keeps the order of the sorted sequence. */
  lemma AssignedLanesKeepInputOrder(items: seq<Item>)
    ensures forall k, day :: 0 <= k < |Pack(SortByStart(items))| ==>
              IsSubseq(WithStart(Pack(SortByStart(items))[k], day), WithStart(items, day))
  {
    var sorted := SortByStart(items);
    var lanes := Pack(sorted);
    PackLanesAreSubsequences(sorted);
    forall k, day | 0 <= k < |lanes|
      ensures IsSubseq(WithStart(lanes[k], day), WithStart(items, day))
    {
      WithStartOfSubseq(lanes[k], sorted, day);
      SortByStartStable(items, day);
    }
  }

  /** Assigning lanes to a copy that is already sorted by start gives the
      same lanes as assigning them to the original items. */
  lemma AssignLanesOfSortedCopy(items: seq<Item>)
    ensures Pack(SortByStart(SortByStart(items))) == Pack(SortByStart(items))
  {
    SortByStartOfSorted(SortByStart(items));
  }

  /** Two inputs that hold the same items of every start day, in the same
      order, get the same lanes. */
  lemma SameStartsSameLanes(a: seq<Item>, b: seq<Item>)
    requires forall day :: WithStart(a, day) == WithStart(b, day)
    ensures Pack(SortByStart(a)) == Pack(SortByStart(b))
  {
    forall day
      ensures WithStart(SortByStart(a), day) == WithStart(SortByStart(b), day)
    {
      SortByStartStable(a, day);
      SortByStartStable(b, day);
    }
    assert SameStarts(SortByStart(a), SortByStart(b));
    SortedDeterminedByStarts(SortByStart(a), SortByStart(b));
  }
}
