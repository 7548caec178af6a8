/** First-fit in start order uses as few lanes as possible.

    When items are placed in order of their start dates, a new lane is opened
    only when the last item of every open lane still runs on the new item's
    start day. On that day one item of every lane is running, and no lane of
    any arrangement can hold two items that share a day, so every arrangement
    of the same items into lanes without overlaps needs at least as many
    lanes. */
module LaneOptimality {
  import opened Lanes

  /** The item runs on `day` (start and end days included). */
  predicate Covers(x: Item, day: int) {
    x.start <= day <= x.end
  }

  /** Two items share at least one day. */
  predicate Overlap(a: Item, b: Item) {
    a.start <= b.end && b.start <= a.end
  }

  /** No two items of the lane share a day, whatever their order. */
  predicate PairwiseDisjoint(lane: seq<Item>) {
    forall p, q :: 0 <= p < q < |lane| ==> !Overlap(lane[p], lane[q])
  }

  /** Some item of the lane runs on `day`. */
  predicate LaneCovers(lane: seq<Item>, day: int) {
    exists p :: 0 <= p < |lane| && Covers(lane[p], day)
  }

  /** Some item of every lane runs on `day`. */
  predicate EveryLaneCovers(lanes: seq<seq<Item>>, day: int) {
    forall k :: 0 <= k < |lanes| ==> LaneCovers(lanes[k], day)
  }

  /** The number of items of `s` that run on `day`. */
  function CoverCount(s: seq<Item>, day: int): nat {
    if s == [] then 0
    else CoverCount(s[..|s| - 1], day) + (if Covers(s[|s| - 1], day) then 1 else 0)
  }

  /** The sum of CoverCount over the lanes. */
  function LanesCoverCount(lanes: seq<seq<Item>>, day: int): nat {
    if lanes == [] then 0
    else LanesCoverCount(lanes[..|lanes| - 1], day) + CoverCount(lanes[|lanes| - 1], day)
  }

  // ---------------------------------------------------------------------------
  // Counting items that run on a day

  lemma {:induction false} CoverCountAppend(u: seq<Item>, v: seq<Item>, day: int)
    ensures CoverCount(u + v, day) == CoverCount(u, day) + CoverCount(v, day)
    decreases |v|
  {
    if v != [] {
      var v' := v[..|v| - 1];
      assert (u + v)[..|u + v| - 1] == u + v';
      CoverCountAppend(u, v', day);
    } else {
      assert u + v == u;
    }
  }

  /** The count depends only on which items there are, not on their order. */
  lemma {:induction false} CoverCountPermutation(a: seq<Item>, b: seq<Item>, day: int)
    requires multiset(a) == multiset(b)
    ensures CoverCount(a, day) == CoverCount(b, day)
    decreases |a|
  {
    if a == [] {
      assert |multiset(b)| == 0;
      assert b == [];
    } else {
      var a' := a[..|a| - 1];
      var x := a[|a| - 1];
      assert a == a' + [x];
      assert multiset(a') == multiset(a) - multiset{x};
      assert x in multiset(b);
      var i :| 0 <= i < |b| && b[i] == x;
      MultisetRemove(b, i);
      CoverCountPermutation(a', b[..i] + b[i + 1..], day);
      CoverCountRemove(b, i, day);
    }
  }

  lemma MultisetRemove(b: seq<Item>, i: nat)
    requires i < |b|
    ensures multiset(b[..i] + b[i + 1..]) == multiset(b) - multiset{b[i]}
  {
    assert b == b[..i] + [b[i]] + b[i + 1..];
  }

  lemma CoverCountRemove(b: seq<Item>, i: nat, day: int)
    requires i < |b|
    ensures CoverCount(b, day) == CoverCount(b[..i] + b[i + 1..], day) + (if Covers(b[i], day) then 1 else 0)
  {
    assert b == b[..i] + ([b[i]] + b[i + 1..]);
    CoverCountAppend(b[..i], [b[i]] + b[i + 1..], day);
    CoverCountAppend([b[i]], b[i + 1..], day);
    CoverCountAppend(b[..i], b[i + 1..], day);
    assert [b[i]][..0] == [];
  }

  lemma {:induction false} CoverCountFlatten(lanes: seq<seq<Item>>, day: int)
    ensures CoverCount(Flatten(lanes), day) == LanesCoverCount(lanes, day)
    decreases |lanes|
  {
    if lanes != [] {
      CoverCountFlatten(lanes[..|lanes| - 1], day);
      CoverCountAppend(Flatten(lanes[..|lanes| - 1]), lanes[|lanes| - 1], day);
    }
  }

  lemma {:induction false} CoverCountPositive(lane: seq<Item>, p: nat, day: int)
    requires p < |lane| && Covers(lane[p], day)
    ensures CoverCount(lane, day) >= 1
    decreases |lane|
  {
    if p < |lane| - 1 {
      CoverCountPositive(lane[..|lane| - 1], p, day);
    }
  }

  /** A lane without overlaps has at most one item running on any day. */
  lemma {:induction false} CoverCountAtMostOne(lane: seq<Item>, day: int)
    requires PairwiseDisjoint(lane)
    ensures CoverCount(lane, day) <= 1
    decreases |lane|
  {
    if lane != [] {
      var lane' := lane[..|lane| - 1];
      assert PairwiseDisjoint(lane');
      CoverCountAtMostOne(lane', day);
      if Covers(lane[|lane| - 1], day) && CoverCount(lane', day) >= 1 {
        var p := CoveringIndex(lane', day);
        assert Overlap(lane[p], lane[|lane| - 1]);
        assert false;
      }
    }
  }

  /** An item of `s` running on `day`, when there is one. */
  lemma {:induction false} CoveringIndex(s: seq<Item>, day: int) returns (p: nat)
    requires CoverCount(s, day) >= 1
    ensures p < |s| && Covers(s[p], day)
    decreases |s|
  {
    if Covers(s[|s| - 1], day) {
      p := |s| - 1;
    } else {
      p := CoveringIndex(s[..|s| - 1], day);
    }
  }

  lemma {:induction false} LanesCoverCountAtLeast(lanes: seq<seq<Item>>, day: int)
    requires EveryLaneCovers(lanes, day)
    ensures LanesCoverCount(lanes, day) >= |lanes|
    decreases |lanes|
  {
    if lanes != [] {
      var n := |lanes| - 1;
      assert EveryLaneCovers(lanes[..n], day) by {
        forall k | 0 <= k < n ensures LaneCovers(lanes[..n][k], day) {
          assert lanes[..n][k] == lanes[k];
        }
      }
      LanesCoverCountAtLeast(lanes[..n], day);
      assert LaneCovers(lanes[n], day);
      var p :| 0 <= p < |lanes[n]| && Covers(lanes[n][p], day);
      CoverCountPositive(lanes[n], p, day);
    }
  }

  lemma {:induction false} LanesCoverCountAtMost(lanes: seq<seq<Item>>, day: int)
    requires forall k :: 0 <= k < |lanes| ==> PairwiseDisjoint(lanes[k])
    ensures LanesCoverCount(lanes, day) <= |lanes|
    decreases |lanes|
  {
    if lanes != [] {
      var n := |lanes| - 1;
      LanesCoverCountAtMost(lanes[..n], day);
      CoverCountAtMostOne(lanes[n], day);
    }
  }

  // ---------------------------------------------------------------------------
  // The packing

  /** When items are packed in start order, some day is run on by an item of
      every lane: the start day of the item that opened the last lane. */
  lemma {:induction false} PackCommonDay(sorted: seq<Item>)
    requires SortedByStart(sorted)
    requires forall i :: 0 <= i < |sorted| ==> ValidItem(sorted[i])
    ensures exists day :: EveryLaneCovers(Pack(sorted), day)
  {
    if sorted == [] {
      assert EveryLaneCovers(Pack(sorted), 0);
    } else {
      var init := sorted[..|sorted| - 1];
      var x := sorted[|sorted| - 1];
      assert sorted == init + [x];
      assert SortedByStart(init);
      PackCommonDay(init);
      var day :| EveryLaneCovers(Pack(init), day);
      var lanes := Pack(init);
      assert Pack(sorted) == Place(lanes, x);
      if FirstFit(lanes, x) < |lanes| {
        JoinKeepsCommonDay(lanes, x, day);
        assert EveryLaneCovers(Pack(sorted), day);
      } else {
        OpenCoversStart(init, x);
        assert EveryLaneCovers(Pack(sorted), x.start);
      }
    }
  }

  /** An item joining a lane keeps every lane running on a common day. */
  lemma JoinKeepsCommonDay(lanes: seq<seq<Item>>, x: Item, day: int)
    requires NonEmptyLanes(lanes) && FirstFit(lanes, x) < |lanes|
    requires EveryLaneCovers(lanes, day)
    ensures EveryLaneCovers(Place(lanes, x), day)
  {
    var placed := Place(lanes, x);
    forall j | 0 <= j < |lanes| ensures LaneCovers(placed[j], day) {
      assert LaneCovers(lanes[j], day);
      var p :| 0 <= p < |lanes[j]| && Covers(lanes[j][p], day);
      assert placed[j][p] == lanes[j][p];
    }
  }

  /** When `x`, starting no earlier than any item of `init`, opens a new lane,
      every lane runs on the start day of `x`. */
  lemma OpenCoversStart(init: seq<Item>, x: Item)
    requires SortedByStart(init + [x])
    requires ValidItem(x)
    requires FirstFit(Pack(init), x) == |Pack(init)|
    ensures EveryLaneCovers(Pack(init + [x]), x.start)
  {
    var lanes := Pack(init);
    var sorted := init + [x];
    assert sorted[..|sorted| - 1] == init;
    assert Pack(sorted) == lanes + [[x]];
    PackPartition(init);
    forall j | 0 <= j < |Pack(sorted)| ensures LaneCovers(Pack(sorted)[j], x.start) {
      if j < |lanes| {
        LastCoversStart(init, x, lanes, j);
        assert Pack(sorted)[j] == lanes[j];
      } else {
        assert Covers(Pack(sorted)[j][0], x.start);
      }
    }
  }

  /** The last item of a lane that `x` does not fit runs on the start day of `x`. */
  lemma LastCoversStart(init: seq<Item>, x: Item, lanes: seq<seq<Item>>, j: nat)
    requires SortedByStart(init + [x])
    requires lanes == Pack(init) && j < |lanes|
    requires multiset(Flatten(lanes)) == multiset(init)
    requires x.start <= LastEnd(lanes[j])
    ensures Covers(lanes[j][|lanes[j]| - 1], x.start)
  {
    var p := |lanes[j]| - 1;
    FlattenContains(lanes, j, p);
    var i :| 0 <= i < |init| && init[i] == lanes[j][p];
    assert (init + [x])[i] == init[i] && (init + [x])[|init|] == x;
  }

  /** In a lane whose consecutive items do not overlap, made of items that
      end no earlier than they start, no two items overlap at all. */
  lemma NoOverlapIsPairwiseDisjoint(lane: seq<Item>)
    requires NoOverlap(lane)
    requires forall p :: 0 <= p < |lane| ==> ValidItem(lane[p])
    ensures PairwiseDisjoint(lane)
  {
    forall p, q | 0 <= p < q < |lane| ensures lane[p].end < lane[q].start {
      EndsBefore(lane, p, q);
    }
  }

  lemma {:induction false} EndsBefore(lane: seq<Item>, p: nat, q: nat)
    requires NoOverlap(lane)
    requires forall i :: 0 <= i < |lane| ==> ValidItem(lane[i])
    requires p < q < |lane|
    ensures lane[p].end < lane[q].start
    decreases q - p
  {
    if p + 1 < q {
      EndsBefore(lane, p, q - 1);
    }
  }

  /** The lanes of `assignLanes` have no two overlapping items, and no
      arrangement of the same items into lanes without overlapping items has
      fewer lanes. Items must end no earlier than they start. */
  lemma FirstFitIsOptimal(items: seq<Item>, other: seq<seq<Item>>)
    requires forall i :: 0 <= i < |items| ==> ValidItem(items[i])
    requires multiset(Flatten(other)) == multiset(items)
    requires forall k :: 0 <= k < |other| ==> PairwiseDisjoint(other[k])
    ensures forall k :: 0 <= k < |Pack(SortByStart(items))| ==> PairwiseDisjoint(Pack(SortByStart(items))[k])
    ensures |Pack(SortByStart(items))| <= |other|
  {
    var sorted := SortByStart(items);
    var lanes := Pack(sorted);
    forall i | 0 <= i < |sorted| ensures ValidItem(sorted[i]) {
      assert sorted[i] in multiset(items);
    }
    PackPartition(sorted);
    forall k | 0 <= k < |lanes| ensures PairwiseDisjoint(lanes[k]) {
      forall p | 0 <= p < |lanes[k]| ensures ValidItem(lanes[k][p]) {
        FlattenContains(lanes, k, p);
      }
      NoOverlapIsPairwiseDisjoint(lanes[k]);
    }
    PackCommonDay(sorted);
    var day :| EveryLaneCovers(lanes, day);
    LanesCoverCountAtLeast(lanes, day);
    CoverCountFlatten(lanes, day);
    CoverCountPermutation(Flatten(lanes), Flatten(other), day);
    CoverCountFlatten(other, day);
    LanesCoverCountAtMost(other, day);
  }
}
