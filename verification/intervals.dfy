/**
 Taking mask intervals out of a text line's horizontal range. Intervals are pairs of whole
 numbers, both ends included.
 */
module Intervals {
  import opened Wrappers
  import opened Sorting

  datatype Interval = Interval(start: int, end: int)

  predicate Holds(i: Interval, x: int) {
    i.start <= x <= i.end
  }

  // The number lies in one of the intervals.
  ghost predicate Covered(list: seq<Interval>, x: int) {
    exists k {:trigger list[k]} :: 0 <= k < |list| && Holds(list[k], x)
  }

  ghost predicate WellFormed(list: seq<Interval>) {
    forall k {:trigger list[k]} :: 0 <= k < |list| ==> list[k].start <= list[k].end
  }

  predicate StartsBefore(a: Interval, b: Interval) {
    a.start <= b.start
  }

  ghost predicate SortedByStart(list: seq<Interval>) {
    Ordered(StartsBefore, list)
  }

  // Each interval ends before the next one starts, with at least `gap` numbers between them.
  ghost predicate Separated(list: seq<Interval>, gap: nat) {
    forall i, j {:trigger list[i], list[j]} :: 0 <= i < j < |list| ==> list[i].end + gap < list[j].start
  }

  lemma CoveredSnoc(list: seq<Interval>, i: Interval, x: int)
    ensures Covered(list + [i], x) <==> Covered(list, x) || Holds(i, x)
  {
    hide Holds;
    var after := list + [i];
    if Covered(list, x) {
      var k :| 0 <= k < |list| && Holds(list[k], x);
      assert after[k] == list[k];
    }
    if Holds(i, x) {
      assert after[|list|] == i;
    }
    if Covered(after, x) {
      var k :| 0 <= k < |after| && Holds(after[k], x);
      assert k < |list| ==> after[k] == list[k];
    }
  }

  lemma SameMembersSameCover(a: seq<Interval>, b: seq<Interval>, x: int)
    requires forall i {:trigger i in a} {:trigger i in b} :: i in a <==> i in b
    ensures Covered(a, x) <==> Covered(b, x)
  {
    hide Holds;
    if Covered(a, x) {
      var k :| 0 <= k < |a| && Holds(a[k], x);
      assert a[k] in b;
      var j :| 0 <= j < |b| && b[j] == a[k];
    }
    if Covered(b, x) {
      var k :| 0 <= k < |b| && Holds(b[k], x);
      assert b[k] in a;
      var j :| 0 <= j < |a| && a[j] == b[k];
    }
  }

  // ------------------------------------------------------------ merging

  function MergeOne(merged: seq<Interval>, i: Interval): seq<Interval> {
    if merged == [] || merged[|merged| - 1].end < i.start then merged + [i]
    else
      var last := merged[|merged| - 1];
      merged[..|merged| - 1] + [Interval(last.start, Max(last.end, i.end))]
  }

  function MergeSorted(list: seq<Interval>): seq<Interval> {
    if list == [] then [] else MergeOne(MergeSorted(list[..|list| - 1]), list[|list| - 1])
  }

  function Merged(list: seq<Interval>): seq<Interval> {
    MergeSorted(Sort(StartsBefore, list))
  }

  method MergeIntervals(intervals: seq<Interval>) returns (merged: seq<Interval>)
    ensures merged == Merged(intervals)
  {
    var sorted := Sort(StartsBefore, intervals);
    merged := [];
    for k := 0 to |sorted|
      invariant merged == MergeSorted(sorted[..k])
    {
      var interval := sorted[k];
      assert sorted[..k + 1][..k] == sorted[..k];
      if merged == [] || merged[|merged| - 1].end < interval.start {
        merged := merged + [interval];
      } else {
        var last := |merged| - 1;
        merged := merged[last := merged[last].(end := Max(merged[last].end, interval.end))];
      }
    }
    assert sorted[..|sorted|] == sorted;
  }

  // One merge step keeps the union, the order and the separation.
  lemma MergeOneStep(merged: seq<Interval>, i: Interval, x: int)
    requires WellFormed(merged) && Separated(merged, 0) && i.start <= i.end
    requires merged != [] ==> merged[|merged| - 1].start <= i.start
    ensures var r := MergeOne(merged, i);
      && r != [] && r[|r| - 1].start <= i.start && WellFormed(r) && Separated(r, 0)
      && (Covered(r, x) <==> Covered(merged, x) || Holds(i, x))
  {
    CoveredSnoc(merged, i, x);
    if merged != [] {
      var last := |merged| - 1;
      assert merged == merged[..last] + [merged[last]];
      CoveredSnoc(merged[..last], merged[last], x);
      CoveredSnoc(merged[..last], Interval(merged[last].start, Max(merged[last].end, i.end)), x);
    }
  }

  lemma {:induction false} MergeSortedIs(list: seq<Interval>, x: int)
    requires WellFormed(list) && SortedByStart(list)
    ensures WellFormed(MergeSorted(list)) && Separated(MergeSorted(list), 0)
    ensures Covered(MergeSorted(list), x) <==> Covered(list, x)
    ensures list != [] ==>
      MergeSorted(list) != [] && MergeSorted(list)[|MergeSorted(list)| - 1].start <= list[|list| - 1].start
  {
    hide Covered, MergeOne, Holds;
    if list != [] {
      var last := |list| - 1;
      MergeSortedIs(list[..last], x);
      MergeOneStep(MergeSorted(list[..last]), list[last], x);
      CoveredSnoc(list[..last], list[last], x);
      assert list == list[..last] + [list[last]];
    }
  }

  // Merging keeps the covered numbers and leaves separate, well-formed intervals.
  lemma MergedIs(list: seq<Interval>, x: int)
    requires WellFormed(list)
    ensures WellFormed(Merged(list)) && Separated(Merged(list), 0)
    ensures Covered(Merged(list), x) <==> Covered(list, x)
  {
    hide Covered, MergeSorted;
    var sorted := Sort(StartsBefore, list);
    SortIsOrdered(StartsBefore, list);
    SortMembers(StartsBefore, list);
    forall k {:trigger sorted[k]} | 0 <= k < |sorted| ensures sorted[k].start <= sorted[k].end {
      assert sorted[k] in list;
    }
    SameMembersSameCover(sorted, list, x);
    MergeSortedIs(sorted, x);
  }

  // ------------------------------------------------------------ removing

  // Pieces kept so far, and where the rest of the range starts.
  datatype Rest = Rest(pieces: seq<Interval>, start: int)

  function CutOne(rest: Rest, end: int, mask: Interval): Rest {
    if mask.start > end || mask.end < rest.start then rest
    else
      Rest(if rest.start < mask.start then rest.pieces + [Interval(rest.start, mask.start - 1)] else rest.pieces,
           Max(mask.end + 1, rest.start))
  }

  function CutAll(original: Interval, masks: seq<Interval>): Rest {
    if masks == [] then Rest([], original.start)
    else CutOne(CutAll(original, masks[..|masks| - 1]), original.end, masks[|masks| - 1])
  }

  function Removed(original: Interval, masks: seq<Interval>): seq<Interval> {
    var rest := CutAll(original, Merged(masks));
    if rest.start <= original.end then rest.pieces + [Interval(rest.start, original.end)] else rest.pieces
  }

  method RemoveIntervals(original: Interval, masks: seq<Interval>) returns (result: seq<Interval>)
    ensures result == Removed(original, masks)
  {
    var merged := MergeIntervals(masks);
    result := [];
    var originalStart := original.start;
    for k := 0 to |merged|
      invariant Rest(result, originalStart) == CutAll(original, merged[..k])
    {
      var mask := merged[k];
      assert merged[..k + 1][..k] == merged[..k];
      if mask.start > original.end {
        continue;
      }
      if mask.end < originalStart {
        continue;
      }
      if originalStart < mask.start {
        result := result + [Interval(originalStart, mask.start - 1)];
      }
      originalStart := Max(mask.end + 1, originalStart);
    }
    assert merged[..|merged|] == merged;
    if originalStart <= original.end {
      result := result + [Interval(originalStart, original.end)];
    }
  }

  // What is kept once some masks are cut: the numbers before the rest's start that no mask
  // covers. The pieces end before every later mask and before the rest.
  ghost predicate CutRight(original: Interval, masks: seq<Interval>, rest: Rest, x: int) {
    && WellFormed(rest.pieces) && Separated(rest.pieces, 1) && rest.start >= original.start
    && (rest.pieces != [] ==>
          rest.pieces[|rest.pieces| - 1].end + 1 < rest.start && masks != []
          && rest.pieces[|rest.pieces| - 1].end < masks[|masks| - 1].start)
    && (Covered(rest.pieces, x) <==> original.start <= x <= original.end && x < rest.start && !Covered(masks, x))
    && (rest.start <= x <= original.end ==> !Covered(masks, x))
  }

  lemma LastEndsLast(list: seq<Interval>, x: int)
    requires WellFormed(list) && Separated(list, 1) && Covered(list, x)
    ensures list != [] && x <= list[|list| - 1].end
  {
  }

  lemma CutOneStep(original: Interval, masks: seq<Interval>, mask: Interval, rest: Rest, x: int)
    requires CutRight(original, masks, rest, x) && mask.start <= mask.end
    requires masks != [] ==> masks[|masks| - 1].start <= mask.start
    ensures CutRight(original, masks + [mask], CutOne(rest, original.end, mask), x)
  {
    hide Covered;
    CoveredSnoc(masks, mask, x);
    CoveredSnoc(rest.pieces, Interval(rest.start, mask.start - 1), x);
    if Covered(rest.pieces, x) {
      LastEndsLast(rest.pieces, x);
    }
    if rest.start < mask.start {
      PiecesBeforeRest(rest.pieces, rest.start, mask.start - 1);
    }
    assert (masks + [mask])[|masks|] == mask;
  }

  lemma {:induction false} CutAllIs(original: Interval, masks: seq<Interval>, x: int)
    requires WellFormed(masks) && SortedByStart(masks)
    ensures CutRight(original, masks, CutAll(original, masks), x)
  {
    if masks != [] {
      hide CutRight, CutOne;
      var last := |masks| - 1;
      CutAllIs(original, masks[..last], x);
      CutOneStep(original, masks[..last], masks[last], CutAll(original, masks[..last]), x);
      assert masks == masks[..last] + [masks[last]];
    }
  }

  // The pieces are well-formed, sorted and not even touching, and hold exactly the numbers of
  // the original interval that no mask covers.
  lemma RemovedIs(original: Interval, masks: seq<Interval>, x: int)
    requires WellFormed(masks)
    ensures WellFormed(Removed(original, masks)) && Separated(Removed(original, masks), 1)
    ensures Covered(Removed(original, masks), x) <==> Holds(original, x) && !Covered(masks, x)
  {
    hide Covered, Merged, CutAll;
    MergedIs(masks, x);
    SeparatedIsSorted(Merged(masks));
    CutAllIs(original, Merged(masks), x);
    var rest := CutAll(original, Merged(masks));
    CoveredSnoc(rest.pieces, Interval(rest.start, original.end), x);
    PiecesBeforeRest(rest.pieces, rest.start, original.end);
  }

  lemma SeparatedIsSorted(list: seq<Interval>)
    requires WellFormed(list) && Separated(list, 0)
    ensures SortedByStart(list)
  {
  }

  lemma PiecesBeforeRest(pieces: seq<Interval>, start: int, end: int)
    requires WellFormed(pieces) && Separated(pieces, 1) && (pieces != [] ==> pieces[|pieces| - 1].end + 1 < start)
    ensures start <= end ==>
      WellFormed(pieces + [Interval(start, end)]) && Separated(pieces + [Interval(start, end)], 1)
  {
  }

  // Only one list of untouching intervals holds a given set of numbers, so what the removal
  // promises leaves no choice.
  lemma {:induction false} OnlyOneList(a: seq<Interval>, b: seq<Interval>)
    requires WellFormed(a) && Separated(a, 1) && WellFormed(b) && Separated(b, 1)
    requires forall x :: Covered(a, x) <==> Covered(b, x)
    ensures a == b
  {
    if a == [] || b == [] {
      if a != [] {
        assert Covered(a, a[0].start);
      }
      if b != [] {
        assert Covered(b, b[0].start);
      }
    } else {
      FirstsAgree(a, b);
      forall x ensures Covered(a[1..], x) <==> Covered(b[1..], x) {
        WithoutFirst(a, x);
        WithoutFirst(b, x);
      }
      OnlyOneList(a[1..], b[1..]);
      assert a == [a[0]] + a[1..] && b == [b[0]] + b[1..];
    }
  }

  lemma WithoutFirst(list: seq<Interval>, x: int)
    requires WellFormed(list) && Separated(list, 1) && list != []
    ensures Covered(list[1..], x) <==> Covered(list, x) && x > list[0].end
  {
    if Covered(list, x) && x > list[0].end {
      var k :| 0 <= k < |list| && Holds(list[k], x);
      assert list[1..][k - 1] == list[k];
    }
    if Covered(list[1..], x) {
      var k :| 0 <= k < |list| - 1 && Holds(list[1..][k], x);
      assert list[1..][k] == list[k + 1];
    }
  }

  lemma FirstsAgree(a: seq<Interval>, b: seq<Interval>)
    requires WellFormed(a) && Separated(a, 1) && WellFormed(b) && Separated(b, 1) && a != [] && b != []
    requires forall x :: Covered(a, x) <==> Covered(b, x)
    ensures a[0] == b[0]
  {
    FirstWithin(a, b);
    FirstWithin(b, a);
  }

  // The first interval of one list starts no earlier than the other's, and if they start
  // together it ends no later.
  lemma FirstWithin(a: seq<Interval>, b: seq<Interval>)
    requires WellFormed(a) && Separated(a, 1) && WellFormed(b) && Separated(b, 1) && a != [] && b != []
    requires forall x :: Covered(a, x) <==> Covered(b, x)
    ensures a[0].start >= b[0].start && (a[0].start == b[0].start ==> a[0].end <= b[0].end)
  {
    FirstCovers(a, a[0].start);
    var k :| 0 <= k < |b| && Holds(b[k], a[0].start);
    NotAfterFirst(b);
    var x := b[0].end + 1;
    if a[0].start == b[0].start && a[0].end >= x {
      FirstCovers(a, x);
    }
  }

  lemma FirstCovers(list: seq<Interval>, x: int)
    requires list != [] && Holds(list[0], x)
    ensures Covered(list, x)
  {
  }

  lemma NotAfterFirst(list: seq<Interval>)
    requires WellFormed(list) && Separated(list, 1) && list != []
    ensures !Covered(list, list[0].end + 1)
  {
  }

  // A mask whose ends are swapped leaves pieces that overlap.
  lemma SwappedMaskOverlaps()
    ensures Removed(Interval(0, 10), [Interval(5, 3)]) == [Interval(0, 4), Interval(4, 10)]
  {
    var mask := Interval(5, 3);
    assert [mask][..0] == [];
    assert Sort(StartsBefore, []) == [] && Sort(StartsBefore, [mask]) == [mask];
    assert MergeSorted([]) == [] && MergeSorted([mask]) == [mask];
    assert Merged([mask]) == [mask];
    assert CutAll(Interval(0, 10), []) == Rest([], 0);
    assert CutAll(Interval(0, 10), [mask]) == Rest([Interval(0, 4)], 4);
  }
}
