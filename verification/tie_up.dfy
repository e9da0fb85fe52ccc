/**
 Tying captions and footnotes to the figure or table they belong to: each object goes to the
 subject nearest to it in reading order, where other objects in between do not count. Edge and
 centre distances between boxes are parameters.
 */
module TieUp {
  import opened Wrappers
  import opened Counting
  import opened Boxes

  // ------------------------------------------------ the index difference

  // Indices strictly between the two that no object has.
  function Gaps(objects: set<int>, low: int, high: int): nat
    decreases high - low
  {
    if low + 1 >= high then 0 else Gaps(objects, low, high - 1) + if high - 1 in objects then 0 else 1
  }

  // Zero for the same index; else one more than the indices between them that no object has.
  function Difference(objects: set<int>, a: int, b: int): nat {
    if a == b then 0 else 1 + Gaps(objects, Min(a, b), Max(a, b))
  }

  method CalcEffectiveIndexDiff(objects: set<int>, objIndex: int, subIndex: int) returns (d: int)
    ensures d == Difference(objects, objIndex, subIndex)
  {
    if objIndex == subIndex {
      return 0;
    }
    var start, end := Min(objIndex, subIndex), Max(objIndex, subIndex);
    var otherObjects := 0;
    for idx := start + 1 to end
      invariant otherObjects + Gaps(objects, start, idx) == idx - start - 1
    {
      if idx in objects {
        otherObjects := otherObjects + 1;
      }
    }
    return end - start - otherObjects;
  }

  lemma {:induction false} GapsCount(objects: set<int>, low: int, high: int)
    ensures Gaps(objects, low, high) == |set x | low < x < high && x !in objects|
    decreases high - low
  {
    var between := set x | low < x < high && x !in objects;
    if low + 1 < high {
      GapsCount(objects, low, high - 1);
      var front := set x | low < x < high - 1 && x !in objects;
      assert between == if high - 1 in objects then front else front + {high - 1};
    } else {
      assert between == {};
    }
  }

  // The difference, by counting.
  lemma DifferenceCounts(objects: set<int>, a: int, b: int)
    ensures Difference(objects, a, a) == 0
    ensures a < b ==> Difference(objects, a, b) == 1 + |set x | a < x < b && x !in objects|
    ensures Difference(objects, a, b) == Difference(objects, b, a)
  {
    if a < b {
      GapsCount(objects, a, b);
    }
  }

  lemma {:induction false} GapsSplit(objects: set<int>, low: int, mid: int, high: int)
    requires low < mid < high
    ensures Gaps(objects, low, high) ==
      Gaps(objects, low, mid) + Gaps(objects, mid, high) + if mid in objects then 0 else 1
    decreases high - mid
  {
    if mid + 1 < high {
      GapsSplit(objects, low, mid, high - 1);
    }
  }

  // Going away from the object on one side, the difference grows at every index that is no
  // object's.
  lemma GrowsAway(objects: set<int>, obj: int, near: int, far: int)
    requires (obj < near < far || far < near < obj) && near !in objects
    ensures Difference(objects, obj, near) < Difference(objects, obj, far)
  {
    if obj < near {
      GapsSplit(objects, obj, near, far);
    } else {
      GapsSplit(objects, far, near, obj);
    }
  }

  // ------------------------------------------------------- the best ones

  ghost predicate Separate(subjects: seq<int>, objects: set<int>) {
    && (forall i, j {:trigger subjects[i], subjects[j]} :: 0 <= i < j < |subjects| ==> subjects[i] != subjects[j])
    && forall i {:trigger subjects[i]} :: 0 <= i < |subjects| ==> subjects[i] !in objects
  }

  // The least difference to any subject.
  function Least(subjects: seq<int>, objects: set<int>, obj: int): (d: nat)
    requires subjects != []
    ensures forall i {:trigger subjects[i]} :: 0 <= i < |subjects| ==> d <= Difference(objects, obj, subjects[i])
    ensures exists i {:trigger subjects[i]} :: 0 <= i < |subjects| && d == Difference(objects, obj, subjects[i])
  {
    var last := |subjects| - 1;
    var d := Difference(objects, obj, subjects[last]);
    assert subjects[last] == subjects[last];
    if last == 0 then d
    else
      var rest := Least(subjects[..last], objects, obj);
      var i :| 0 <= i < last && rest == Difference(objects, obj, subjects[..last][i]);
      assert subjects[..last][i] == subjects[i];
      Min(d, rest)
  }

  // Positions of the subjects at distance d, in order.
  function At(subjects: seq<int>, objects: set<int>, obj: int, d: nat): (r: seq<nat>)
    ensures Ascending(r, |subjects|)
    ensures forall i: nat {:trigger i in r} :: i in r <==> i < |subjects| && Difference(objects, obj, subjects[i]) == d
  {
    if subjects == [] then []
    else
      var last := |subjects| - 1;
      At(subjects[..last], objects, obj, d) + if Difference(objects, obj, subjects[last]) == d then [last] else []
  }

  function Best(subjects: seq<int>, objects: set<int>, obj: int): (r: seq<nat>)
    requires subjects != []
    ensures r != [] && Ascending(r, |subjects|)
  {
    var d := Least(subjects, objects, obj);
    var i :| 0 <= i < |subjects| && d == Difference(objects, obj, subjects[i]);
    assert i in At(subjects, objects, obj, d);
    At(subjects, objects, obj, d)
  }

  lemma {:induction false} NoneAt(subjects: seq<int>, objects: set<int>, obj: int, d: nat)
    requires forall i {:trigger subjects[i]} :: 0 <= i < |subjects| ==> Difference(objects, obj, subjects[i]) != d
    ensures At(subjects, objects, obj, d) == []
  {
    if subjects != [] {
      NoneAt(subjects[..|subjects| - 1], objects, obj, d);
    }
  }

  // One more subject replaces the best ones, joins them or leaves them.
  lemma BestSnoc(subjects: seq<int>, objects: set<int>, obj: int, n: nat)
    requires n < |subjects|
    ensures n == 0 ==> Best(subjects[..1], objects, obj) == [0]
    ensures n == 0 ==> Least(subjects[..1], objects, obj) == Difference(objects, obj, subjects[0])
    ensures n > 0 ==>
      var d, before := Difference(objects, obj, subjects[n]), Least(subjects[..n], objects, obj);
      && Least(subjects[..n + 1], objects, obj) == Min(d, before)
      && Best(subjects[..n + 1], objects, obj) ==
         if d < before then [n]
           else if d == before then Best(subjects[..n], objects, obj) + [n] else Best(subjects[..n], objects, obj)
  {
    hide Difference;
    var d := Difference(objects, obj, subjects[n]);
    assert subjects[..n + 1][..n] == subjects[..n];
    if n == 0 {
      assert subjects[..0] == [] && At(subjects[..0], objects, obj, d) == [];
      assert At(subjects[..1], objects, obj, d) == [0];
    }
    if n > 0 && d < Least(subjects[..n], objects, obj) {
      forall i {:trigger subjects[..n][i]} | 0 <= i < n ensures Difference(objects, obj, subjects[..n][i]) != d {
        assert Least(subjects[..n], objects, obj) <= Difference(objects, obj, subjects[..n][i]);
      }
      NoneAt(subjects[..n], objects, obj, d);
    }
  }

  method FindBest(subjects: seq<int>, objects: set<int>, obj: int) returns (best: seq<nat>)
    requires subjects != []
    ensures best == Best(subjects, objects, obj)
  {
    hide Difference, Least, Best, At;
    var minDiff: Option<int> := None;
    best := [];
    for i := 0 to |subjects|
      invariant minDiff.None? <==> i == 0
      invariant i > 0 ==>
        minDiff.value == Least(subjects[..i], objects, obj) && best == Best(subjects[..i], objects, obj)
    {
      var diff := CalcEffectiveIndexDiff(objects, obj, subjects[i]);
      BestSnoc(subjects, objects, obj, i);
      if minDiff.None? || diff < minDiff.value {
        minDiff := Some(diff);
        best := [i];
      } else if diff == minDiff.value {
        best := best + [i];
      }
    }
    assert subjects[..|subjects|] == subjects;
  }

  // With separate indices at most two subjects are nearest, one on each side.
  lemma AtMostTwoNearest(subjects: seq<int>, objects: set<int>, obj: int)
    requires subjects != [] && Separate(subjects, objects) && obj in objects
    ensures |Best(subjects, objects, obj)| <= 2
    ensures |Best(subjects, objects, obj)| == 2 ==>
      var best := Best(subjects, objects, obj);
      (subjects[best[0]] < obj < subjects[best[1]] || subjects[best[1]] < obj < subjects[best[0]])
  {
    hide Difference, Least;
    var best := Best(subjects, objects, obj);
    assert forall k {:trigger best[k]} :: 0 <= k < |best| ==> best[k] in best;
    if |best| >= 2 {
      OppositeSides(subjects, objects, obj, best[0], best[1]);
      if |best| >= 3 {
        OppositeSides(subjects, objects, obj, best[0], best[2]);
        OppositeSides(subjects, objects, obj, best[1], best[2]);
      }
    }
  }

  lemma OppositeSides(subjects: seq<int>, objects: set<int>, obj: int, i: nat, j: nat)
    requires i < |subjects| && j < |subjects| && i != j && Separate(subjects, objects) && obj in objects
    requires Difference(objects, obj, subjects[i]) == Difference(objects, obj, subjects[j])
    ensures subjects[i] < obj < subjects[j] || subjects[j] < obj < subjects[i]
  {
    hide Difference;
    var a, b := subjects[i], subjects[j];
    assert a != b;
    if obj < a < b || b < a < obj {
      GrowsAway(objects, obj, a, b);
    } else if obj < b < a || a < b < obj {
      GrowsAway(objects, obj, b, a);
    }
  }

  // Three nearest subjects, when two of them share an index, or one has an object's index.
  lemma SeparationIsNeeded()
    ensures |Best([3, 3, 3], {5}, 5)| == 3
    ensures |Best([1, 2, -1], {0, 1}, 0)| == 3
  {
    assert Gaps({5}, 3, 5) == 1;
    assert Difference({5}, 5, 3) == 2;
    AllAt([3, 3, 3], {5}, 5, 2);
    assert Gaps({0, 1}, 0, 2) == 0 && Gaps({0, 1}, 0, 1) == 0 && Gaps({0, 1}, -1, 0) == 0;
    assert Difference({0, 1}, 0, 1) == 1 && Difference({0, 1}, 0, 2) == 1 && Difference({0, 1}, 0, -1) == 1;
    AllAt([1, 2, -1], {0, 1}, 0, 1);
  }

  lemma {:induction false} AllAt(subjects: seq<int>, objects: set<int>, obj: int, d: nat)
    requires subjects != []
    requires forall i {:trigger subjects[i]} :: 0 <= i < |subjects| ==> Difference(objects, obj, subjects[i]) == d
    ensures |Best(subjects, objects, obj)| == |subjects|
  {
    AllListed(subjects, objects, obj, d);
  }

  lemma {:induction false} AllListed(subjects: seq<int>, objects: set<int>, obj: int, d: nat)
    requires forall i {:trigger subjects[i]} :: 0 <= i < |subjects| ==> Difference(objects, obj, subjects[i]) == d
    ensures |At(subjects, objects, obj, d)| == |subjects|
  {
    hide Difference;
    if subjects != [] {
      AllListed(subjects[..|subjects| - 1], objects, obj, d);
    }
  }

  // ------------------------------------------------------------- the tie

  datatype Setup = Setup(subjects: seq<int>, objects: seq<int>, includeBox: bool, objectType: string,
                         edge: (nat, nat) -> real, center: (nat, nat) -> real)

  predicate EndsWith(s: string, tail: string) {
    |s| >= |tail| && s[|s| - |tail|..] == tail
  }

  function Indices(objects: seq<int>): set<int> {
    set x | x in objects
  }

  // Between two nearest subjects: by edge distance when it clearly differs, then by the rule
  // of the object's type, then by centre distance; the first one if nothing decides.
  function Pick(t: Setup, k: nat, a: nat, b: nat): nat
    requires a < |t.subjects| && b < |t.subjects|
  {
    if !t.includeBox then a
    else if AbsR(t.edge(k, a) - t.edge(k, b)) > 2.0 then (if t.edge(k, b) < t.edge(k, a) then b else a)
    else if t.objectType == "table_caption" then (if t.subjects[b] > t.subjects[a] then b else a)
    else if EndsWith(t.objectType, "footnote") then (if t.subjects[b] < t.subjects[a] then b else a)
    else if t.center(k, b) < t.center(k, a) then b else a
  }

  function BestFor(t: Setup, k: nat): (r: seq<nat>)
    requires t.subjects != [] && k < |t.objects|
    ensures r != [] && Ascending(r, |t.subjects|)
  {
    Best(t.subjects, Indices(t.objects), t.objects[k])
  }

  // The subject object k goes to; none without subjects, or with more than two nearest ones.
  function SubjectOf(t: Setup, k: nat): (r: Option<nat>)
    requires k < |t.objects|
    ensures r.Some? ==> r.value < |t.subjects|
  {
    if t.subjects == [] then None
    else
      var best := BestFor(t, k);
      if |best| == 1 then Some(best[0]) else if |best| == 2 then Some(Pick(t, k, best[0], best[1])) else None
  }

  // The first n objects' positions that go to subject j, in order.
  function ObjectsOf(t: Setup, n: nat, j: nat): seq<nat>
    requires n <= |t.objects|
  {
    if n == 0 then [] else ObjectsOf(t, n - 1, j) + if SubjectOf(t, n - 1) == Some(j) then [n - 1] else []
  }

  datatype Result = Tied(lists: seq<seq<nat>>) | TooMany(tied: nat)

  method ChooseSubject(t: Setup, k: nat, best: seq<nat>) returns (choice: nat)
    requires k < |t.objects| && |best| == 2 && best[0] < |t.subjects| && best[1] < |t.subjects|
    ensures choice == Pick(t, k, best[0], best[1])
  {
    if !t.includeBox {
      return best[0];
    }
    var edge0, edge1 := t.edge(k, best[0]), t.edge(k, best[1]);
    if AbsR(edge0 - edge1) > 2.0 {
      return if edge1 < edge0 then best[1] else best[0];
    }
    if t.objectType == "table_caption" {
      return if t.subjects[best[1]] > t.subjects[best[0]] then best[1] else best[0];
    }
    if EndsWith(t.objectType, "footnote") {
      return if t.subjects[best[1]] < t.subjects[best[0]] then best[1] else best[0];
    }
    var center0, center1 := t.center(k, best[0]), t.center(k, best[1]);
    return if center1 < center0 then best[1] else best[0];
  }

  // No object has more than two nearest subjects.
  ghost predicate AllDecided(t: Setup, n: nat)
    requires n <= |t.objects|
  {
    t.subjects == [] || forall k: nat {:trigger BestFor(t, k)} :: k < n ==> |BestFor(t, k)| <= 2
  }

  // Every object is listed with its owner, unless one has too many nearest subjects; that is
  // out of reach for separate indices.
  method TieUpCategoryByIndex(t: Setup) returns (result: Result)
    ensures result.Tied? ==>
      (|result.lists| == |t.subjects|
       && forall j: nat {:trigger result.lists[j]} ::
            j < |result.lists| ==> result.lists[j] == ObjectsOf(t, |t.objects|, j))
    ensures result.Tied? <==> AllDecided(t, |t.objects|)
    ensures result.TooMany? ==> t.subjects != [] && result.tied < |t.objects| && |BestFor(t, result.tied)| > 2
    ensures Separate(t.subjects, Indices(t.objects)) ==> result.Tied?
  {
    hide BestFor, Pick, Separate;
    var lists := seq(|t.subjects|, j => []);
    var objectIndices := Indices(t.objects);
    for k := 0 to |t.objects|
      invariant |lists| == |t.subjects| && AllDecided(t, k)
      invariant forall j: nat {:trigger lists[j]} :: j < |lists| ==> lists[j] == ObjectsOf(t, k, j)
    {
      if |t.subjects| == 0 {
        continue;
      }
      var best := FindBest(t.subjects, objectIndices, t.objects[k]);
      BestForIs(t, k);
      var choice: nat;
      if |best| == 1 {
        choice := best[0];
      } else if |best| == 2 {
        choice := ChooseSubject(t, k, best);
      } else {
        if Separate(t.subjects, objectIndices) {
          AtMostTwoNearest(t.subjects, objectIndices, t.objects[k]);
          assert false;
        }
        return TooMany(k);
      }
      assert SubjectOf(t, k) == Some(choice);
      lists := lists[choice := lists[choice] + [k]];
    }
    return Tied(lists);
  }

  lemma BestForIs(t: Setup, k: nat)
    requires t.subjects != [] && k < |t.objects|
    ensures BestFor(t, k) == Best(t.subjects, Indices(t.objects), t.objects[k])
  {
  }

  // With separate indices every object has an owner, and no subject is nearer to it.
  lemma OwnerIsNearest(t: Setup, k: nat, i: nat)
    requires t.subjects != [] && k < |t.objects| && i < |t.subjects| && Separate(t.subjects, Indices(t.objects))
    ensures SubjectOf(t, k).Some?
    ensures Difference(Indices(t.objects), t.objects[k], t.subjects[SubjectOf(t, k).value])
      <= Difference(Indices(t.objects), t.objects[k], t.subjects[i])
  {
    hide Difference, Separate;
    AtMostTwoNearest(t.subjects, Indices(t.objects), t.objects[k]);
    var best := BestFor(t, k);
    assert forall j {:trigger best[j]} :: 0 <= j < |best| ==> best[j] in best;
  }

  // Of two nearest subjects the object goes to one: without boxes to the first; else to the nearer
  // one by edge distance if these differ by more than 2; else a table caption to the one with
  // the greater index, a footnote to the one with the smaller; else to the nearer one by centre
  // distance, the first if they are as far.
  lemma ChosenOfTwo(t: Setup, k: nat)
    requires t.subjects != [] && k < |t.objects| && |BestFor(t, k)| == 2
    ensures var best := BestFor(t, k);
      SubjectOf(t, k) == Some(best[0]) || SubjectOf(t, k) == Some(best[1])
    ensures !t.includeBox ==> SubjectOf(t, k) == Some(BestFor(t, k)[0])
    ensures t.includeBox ==>
      var a, b := BestFor(t, k)[0], BestFor(t, k)[1];
      && (t.edge(k, a) + 2.0 < t.edge(k, b) ==> SubjectOf(t, k) == Some(a))
      && (t.edge(k, b) + 2.0 < t.edge(k, a) ==> SubjectOf(t, k) == Some(b))
      && (-2.0 <= t.edge(k, a) - t.edge(k, b) <= 2.0 ==>
            if t.objectType == "table_caption" then
              SubjectOf(t, k) == Some(if t.subjects[a] >= t.subjects[b] then a else b)
            else if EndsWith(t.objectType, "footnote") then
              SubjectOf(t, k) == Some(if t.subjects[a] <= t.subjects[b] then a else b)
            else SubjectOf(t, k) == Some(if t.center(k, a) <= t.center(k, b) then a else b))
  {
    hide BestFor;
  }

  // The only nearest subject is the object's.
  lemma ChosenAlone(t: Setup, k: nat)
    requires t.subjects != [] && k < |t.objects| && |BestFor(t, k)| == 1
    ensures SubjectOf(t, k) == Some(BestFor(t, k)[0])
  {
    hide BestFor;
  }

  // The nearest subjects are those with the fewest indices in between that no object has, none for
  // an equal index.
  lemma NearestCounts(t: Setup, k: nat, i: nat)
    requires t.subjects != [] && k < |t.objects| && i < |t.subjects|
    ensures i in BestFor(t, k) <==>
      forall j: nat {:trigger t.subjects[j]} :: j < |t.subjects| ==>
        Difference(Indices(t.objects), t.objects[k], t.subjects[i])
        <= Difference(Indices(t.objects), t.objects[k], t.subjects[j])
  {
    hide Difference;
  }

  // Between two nearest subjects about as far by their edges, a table caption goes to the one
  // after it and a footnote to the one before it.
  lemma RuleByType(t: Setup, k: nat)
    requires t.subjects != [] && k < |t.objects| && Separate(t.subjects, Indices(t.objects)) && t.includeBox
    requires var best := BestFor(t, k); |best| == 2 && AbsR(t.edge(k, best[0]) - t.edge(k, best[1])) <= 2.0
    ensures t.objectType == "table_caption" ==>
      SubjectOf(t, k).Some? && t.subjects[SubjectOf(t, k).value] > t.objects[k]
    ensures EndsWith(t.objectType, "footnote") ==>
      SubjectOf(t, k).Some? && t.subjects[SubjectOf(t, k).value] < t.objects[k]
  {
    hide Difference, Separate;
    AtMostTwoNearest(t.subjects, Indices(t.objects), t.objects[k]);
    assert !EndsWith("table_caption", "footnote") by {
      assert "table_caption"[5..][0] != "footnote"[0];
    }
  }

  lemma OneMore(s: seq<nat>, x: nat, listed: bool, k: nat)
    ensures multiset(s + if listed then [x] else [])[k] == multiset(s)[k] + if listed && k == x then 1 else 0
  {
  }

  // An object is in its owner's list once, and in no other.
  lemma {:induction false} ListedOnce(t: Setup, n: nat, j: nat, k: nat)
    requires n <= |t.objects| && k < |t.objects|
    ensures multiset(ObjectsOf(t, n, j))[k] == if k < n && SubjectOf(t, k) == Some(j) then 1 else 0
  {
    hide SubjectOf;
    if n == 0 {
      assert ObjectsOf(t, n, j) == [];
    } else {
      var before := ObjectsOf(t, n - 1, j);
      var listed := SubjectOf(t, n - 1) == Some(j);
      assert ObjectsOf(t, n, j) == before + if listed then [n - 1] else [];
      hide ObjectsOf;
      ListedOnce(t, n - 1, j, k);
      OneMore(before, n - 1, listed, k);
      if k == n - 1 {
        assert multiset(before)[k] == 0;
      }
    }
  }
}
