/**
 What the cell merge does to the two rows at a page boundary, in terms of the columns the
 cells span: which lower cell's content goes to which upper cell.
 */
module TableAligned {
  import opened TableGrid
  import opened TableCarryLayout
  import opened TableCellMerge

  // The last row above the boundary and the first one below it, the columns their cells
  // start in, and the merge flags by column.
  datatype Border = Border(up: Row, upStarts: seq<nat>, low: Row, lowStarts: seq<nat>, flags: seq<int>)

  predicate Sized(b: Border) {
    |b.up| == |b.upStarts| && |b.low| == |b.lowStarts|
  }

  ghost predicate Laid(b: Border) {
    Sized(b) && Successive(b.up, b.upStarts) && Successive(b.low, b.lowStarts)
  }

  // Column vi is flagged and lies in cell i of the upper row and in cell j of the lower one.
  ghost predicate Meets(b: Border, vi: nat, i: nat, j: nat)
    requires Sized(b)
  {
    && vi < |b.flags| && b.flags[vi] == 1 && i < |b.up| && j < |b.low|
    && Spans(b.upStarts[i], b.up[i], vi) && Spans(b.lowStarts[j], b.low[j], vi)
  }

  // Column vi is the first one where cell j of the lower row meets any upper cell.
  ghost predicate FirstMeets(b: Border, vi: nat, i: nat, j: nat)
    requires Sized(b)
  {
    Meets(b, vi, i, j) && forall u: nat, k: nat {:trigger Meets(b, u, k, j)} :: u < vi ==> !Meets(b, u, k, j)
  }

  // The upper cell that lower cell j is aligned with is cell i.
  ghost predicate GoesTo(b: Border, j: nat, i: nat)
    requires Sized(b)
  {
    exists vi: nat :: FirstMeets(b, vi, i, j)
  }

  ghost predicate Leaves(b: Border, j: nat)
    requires Sized(b)
  {
    exists i: nat :: GoesTo(b, j, i)
  }

  // The contents of the lower cells from j on that go to upper cell i, left to right.
  ghost function Arriving(b: Border, i: nat, j: nat): seq<Node>
    requires Sized(b) && j <= |b.low|
    decreases |b.low| - j
  {
    if j == |b.low| then []
    else (if GoesTo(b, j, i) then b.low[j].content else []) + Arriving(b, i, j + 1)
  }

  // The upper row afterwards: every cell keeps what it had, followed by what arrives.
  ghost function Received(b: Border): (r: Row)
    requires Sized(b)
    ensures |r| == |b.up|
  {
    seq(|b.up|, i requires 0 <= i < |b.up| => b.up[i].(content := b.up[i].content + Arriving(b, i, 0)))
  }

  // The lower row afterwards: the cells that gave their content are empty, the others as before.
  ghost function Given(b: Border): (r: Row)
    requires Sized(b)
    ensures |r| == |b.low|
  {
    seq(|b.low|, j requires 0 <= j < |b.low| => if Leaves(b, j) then b.low[j].(content := []) else b.low[j])
  }

  // ------------------------------------------- arrivals cell by cell

  // Cells are met from left to right.
  ghost predicate Growing(v: map<nat, nat>) {
    forall a, b {:trigger v[a], v[b]} :: a in v && b in v && a <= b ==> v[a] <= v[b]
  }

  // Cell j's first aligned column is vi or later, and lies in cell i.
  ghost predicate FirstFrom(v1: map<nat, nat>, v2: map<nat, nat>, flags: seq<int>, i: nat, vi: nat, j: nat) {
    exists u: nat {:trigger FirstAligned(v1, v2, flags, u)} ::
      u >= vi && FirstAligned(v1, v2, flags, u) && v2[u] == j && v1[u] == i
  }

  ghost function ArrivingFrom(src: Row, v1: map<nat, nat>, v2: map<nat, nat>, flags: seq<int>,
                              i: nat, vi: nat, j: nat): seq<Node>
    requires j <= |src|
    decreases |src| - j
  {
    if j == |src| then []
    else
      (if FirstFrom(v1, v2, flags, i, vi, j) then src[j].content else [])
      + ArrivingFrom(src, v1, v2, flags, i, vi, j + 1)
  }

  lemma {:induction false} SameArriving(src: Row, v1: map<nat, nat>, v2: map<nat, nat>, flags: seq<int>,
                                        i: nat, a: nat, b: nat, j: nat)
    requires j <= |src|
    requires forall k: nat {:trigger FirstFrom(v1, v2, flags, i, a, k)} :: j <= k ==>
      (FirstFrom(v1, v2, flags, i, a, k) <==> FirstFrom(v1, v2, flags, i, b, k))
    ensures ArrivingFrom(src, v1, v2, flags, i, a, j) == ArrivingFrom(src, v1, v2, flags, i, b, j)
    decreases |src| - j
  {
    hide FirstFrom;
    if j < |src| {
      SameArriving(src, v1, v2, flags, i, a, b, j + 1);
    }
  }

  lemma {:induction false} SkipArriving(src: Row, v1: map<nat, nat>, v2: map<nat, nat>, flags: seq<int>,
                                        i: nat, vi: nat, j: nat, to: nat)
    requires j <= to <= |src|
    requires forall k: nat {:trigger FirstFrom(v1, v2, flags, i, vi, k)} ::
      j <= k < to ==> !FirstFrom(v1, v2, flags, i, vi, k)
    ensures ArrivingFrom(src, v1, v2, flags, i, vi, j) == ArrivingFrom(src, v1, v2, flags, i, vi, to)
    decreases |src| - j
  {
    hide FirstFrom;
    if j < to {
      SkipArriving(src, v1, v2, flags, i, vi, j + 1, to);
    }
  }

  lemma NextColumn(v1: map<nat, nat>, v2: map<nat, nat>, flags: seq<int>, i: nat, vi: nat, j: nat)
    ensures FirstFrom(v1, v2, flags, i, vi, j) <==>
      FirstFrom(v1, v2, flags, i, vi + 1, j) || (FirstAligned(v1, v2, flags, vi) && v2[vi] == j && v1[vi] == i)
  {
    hide FirstAligned;
  }

  // Cells whose first aligned column comes after vi lie right of the one first aligned at vi.
  lemma LaterCells(v1: map<nat, nat>, v2: map<nat, nat>, flags: seq<int>, i: nat, vi: nat, j: nat)
    requires Growing(v2) && FirstAligned(v1, v2, flags, vi) && FirstFrom(v1, v2, flags, i, vi + 1, j)
    ensures j > v2[vi]
  {
  }

  // Taking the columns left to right is taking the cells left to right.
  lemma {:induction false} ArrivalsByCell(src: Row, v1: map<nat, nat>, v2: map<nat, nat>, flags: seq<int>, i: nat,
                                          vi: nat)
    requires vi <= |flags| && InRange(v2, |src|) && Growing(v2)
    ensures Arrivals(src, v1, v2, flags, i, vi) == ArrivingFrom(src, v1, v2, flags, i, vi, 0)
    decreases |flags| - vi
  {
    if vi == |flags| {
      SkipArriving(src, v1, v2, flags, i, vi, 0, |src|);
    } else {
      var next := vi + 1;
      ArrivalsByCell(src, v1, v2, flags, i, next);
      forall j: nat {:trigger FirstFrom(v1, v2, flags, i, vi, j)}
        ensures FirstFrom(v1, v2, flags, i, vi, j) <==>
          FirstFrom(v1, v2, flags, i, next, j) || (FirstAligned(v1, v2, flags, vi) && v2[vi] == j && v1[vi] == i)
      {
        NextColumn(v1, v2, flags, i, vi, j);
      }
      hide FirstFrom;
      if FirstAligned(v1, v2, flags, vi) && v1[vi] == i {
        FirstColumnArrives(src, v1, v2, flags, i, vi);
      } else {
        SameArriving(src, v1, v2, flags, i, vi, next, 0);
      }
    }
  }

  lemma FirstColumnArrives(src: Row, v1: map<nat, nat>, v2: map<nat, nat>, flags: seq<int>, i: nat, vi: nat)
    requires InRange(v2, |src|) && Growing(v2) && FirstAligned(v1, v2, flags, vi) && v1[vi] == i
    requires forall j: nat {:trigger FirstFrom(v1, v2, flags, i, vi, j)} ::
      FirstFrom(v1, v2, flags, i, vi, j) <==> FirstFrom(v1, v2, flags, i, vi + 1, j) || v2[vi] == j
    ensures ArrivingFrom(src, v1, v2, flags, i, vi, 0) ==
      src[v2[vi]].content + ArrivingFrom(src, v1, v2, flags, i, vi + 1, 0)
  {
    var j, next := v2[vi], vi + 1;
    hide FirstFrom, FirstAligned;
    forall k: nat {:trigger FirstFrom(v1, v2, flags, i, next, k)} | k <= j
      ensures !FirstFrom(v1, v2, flags, i, next, k)
    {
      if FirstFrom(v1, v2, flags, i, next, k) {
        LaterCells(v1, v2, flags, i, vi, k);
      }
    }
    SkipArriving(src, v1, v2, flags, i, vi, 0, j);
    SkipArriving(src, v1, v2, flags, i, next, 0, j + 1);
    SameArriving(src, v1, v2, flags, i, vi, next, j + 1);
  }

  // ------------------------------------------------ columns and spans

  lemma GrowingMap(row: Row, starts: seq<nat>)
    requires |row| == |starts| && Successive(row, starts)
    ensures Growing(ColumnMap(row, starts))
  {
    var v := ColumnMap(row, starts);
    ColumnMapInRange(row, starts);
    hide ColumnMap;
    forall a, b {:trigger v[a], v[b]} | a in v && b in v && a <= b ensures v[a] <= v[b] {
      ColumnMapMeaning(row, starts, a, v[a]);
      ColumnMapMeaning(row, starts, b, v[b]);
    }
  }

  lemma MapMeets(b: Border, vi: nat, i: nat, j: nat)
    requires Laid(b) && i < |b.up| && j < |b.low|
    ensures var v1, v2 := ColumnMap(b.up, b.upStarts), ColumnMap(b.low, b.lowStarts);
      Meets(b, vi, i, j) <==> Aligned(v1, v2, b.flags, vi) && v1[vi] == i && v2[vi] == j
  {
    hide ColumnMap, Successive;
    ColumnMapMeaning(b.up, b.upStarts, vi, i);
    ColumnMapMeaning(b.low, b.lowStarts, vi, j);
  }

  lemma MapFirstMeets(b: Border, vi: nat, i: nat, j: nat)
    requires Laid(b) && i < |b.up| && j < |b.low|
    ensures var v1, v2 := ColumnMap(b.up, b.upStarts), ColumnMap(b.low, b.lowStarts);
      FirstMeets(b, vi, i, j) <==> FirstAligned(v1, v2, b.flags, vi) && v1[vi] == i && v2[vi] == j
  {
    var v1, v2 := ColumnMap(b.up, b.upStarts), ColumnMap(b.low, b.lowStarts);
    hide ColumnMap, Successive, Meets;
    MapMeets(b, vi, i, j);
    if FirstMeets(b, vi, i, j) {
      forall u: nat {:trigger Aligned(v1, v2, b.flags, u)} | u < vi && Aligned(v1, v2, b.flags, u) ensures v2[u] != j {
        MeetsSome(b, u, j);
      }
    } else if FirstAligned(v1, v2, b.flags, vi) && v1[vi] == i && v2[vi] == j {
      forall u: nat, k: nat {:trigger Meets(b, u, k, j)} | u < vi ensures !Meets(b, u, k, j) {
        MeetsSome(b, u, j);
      }
    }
  }

  lemma MeetsSome(b: Border, u: nat, j: nat)
    requires Laid(b) && j < |b.low|
    ensures var v1, v2 := ColumnMap(b.up, b.upStarts), ColumnMap(b.low, b.lowStarts);
      (exists k: nat :: Meets(b, u, k, j)) <==> Aligned(v1, v2, b.flags, u) && v2[u] == j
  {
    var v1, v2 := ColumnMap(b.up, b.upStarts), ColumnMap(b.low, b.lowStarts);
    ColumnMapInRange(b.up, b.upStarts);
    hide ColumnMap, Laid;
    if Aligned(v1, v2, b.flags, u) && v2[u] == j {
      MapMeets(b, u, v1[u], j);
    }
    if k: nat :| Meets(b, u, k, j) {
      MapMeets(b, u, k, j);
    }
  }

  lemma GoesToIsFirstFrom(b: Border, i: nat, j: nat)
    requires Laid(b) && i < |b.up| && j < |b.low|
    ensures GoesTo(b, j, i) <==>
      FirstFrom(ColumnMap(b.up, b.upStarts), ColumnMap(b.low, b.lowStarts), b.flags, i, 0, j)
  {
    hide ColumnMap, Successive, FirstMeets;
    forall vi: nat
      ensures var v1, v2 := ColumnMap(b.up, b.upStarts), ColumnMap(b.low, b.lowStarts);
        FirstMeets(b, vi, i, j) <==> FirstAligned(v1, v2, b.flags, vi) && v1[vi] == i && v2[vi] == j
    {
      MapFirstMeets(b, vi, i, j);
    }
  }

  // A cell with any aligned column has a first one.
  lemma {:induction false} SomeFirst(v1: map<nat, nat>, v2: map<nat, nat>, flags: seq<int>, j: nat, u: nat)
    returns (vi: nat)
    requires Aligned(v1, v2, flags, u) && v2[u] == j
    ensures FirstAligned(v1, v2, flags, vi) && v2[vi] == j
  {
    if w: nat :| w < u && Aligned(v1, v2, flags, w) && v2[w] == j {
      vi := SomeFirst(v1, v2, flags, j, w);
    } else {
      vi := u;
    }
  }

  lemma LeavesIsEmptied(b: Border, j: nat)
    requires Laid(b) && j < |b.low|
    ensures Leaves(b, j) <==>
      Emptied(ColumnMap(b.up, b.upStarts), ColumnMap(b.low, b.lowStarts), b.flags, j, |b.flags|)
  {
    var v1, v2 := ColumnMap(b.up, b.upStarts), ColumnMap(b.low, b.lowStarts);
    ColumnMapInRange(b.up, b.upStarts);
    hide ColumnMap, Laid;
    if Emptied(v1, v2, b.flags, j, |b.flags|) {
      var u: nat :| u < |b.flags| && Aligned(v1, v2, b.flags, u) && v2[u] == j;
      var vi := SomeFirst(v1, v2, b.flags, j, u);
      MapFirstMeets(b, vi, v1[vi], j);
      assert GoesTo(b, j, v1[vi]);
    }
    if Leaves(b, j) {
      var i: nat :| GoesTo(b, j, i);
      var vi: nat :| FirstMeets(b, vi, i, j);
      MapMeets(b, vi, i, j);
      assert Aligned(v1, v2, b.flags, vi);
    }
  }

  lemma {:induction false} ArrivingIsFrom(b: Border, i: nat, j: nat)
    requires Laid(b) && i < |b.up| && j <= |b.low|
    ensures Arriving(b, i, j) ==
      ArrivingFrom(b.low, ColumnMap(b.up, b.upStarts), ColumnMap(b.low, b.lowStarts), b.flags, i, 0, j)
    decreases |b.low| - j
  {
    hide ColumnMap, Laid, GoesTo, FirstFrom;
    if j < |b.low| {
      GoesToIsFirstFrom(b, i, j);
      ArrivingIsFrom(b, i, j + 1);
    }
  }

  // The transfers by column give every upper cell what its aligned lower cells held, and leave
  // exactly those cells empty.
  lemma TransferIsAligned(b: Border)
    requires Laid(b)
    ensures var v1, v2 := ColumnMap(b.up, b.upStarts), ColumnMap(b.low, b.lowStarts);
      InRange(v1, |b.up|) && InRange(v2, |b.low|)
        && Transfer(b.up, b.low, v1, v2, b.flags, 0) == (Received(b), Given(b))
  {
    var v1, v2 := ColumnMap(b.up, b.upStarts), ColumnMap(b.low, b.lowStarts);
    ColumnMapInRange(b.up, b.upStarts);
    ColumnMapInRange(b.low, b.lowStarts);
    GrowingMap(b.low, b.lowStarts);
    TransferMeaning(b.up, b.low, v1, v2, b.flags);
    hide ColumnMap, Successive, Transfer, Arrivals, Arriving, Leaves, Emptied, InRange, Growing;
    var r := Transfer(b.up, b.low, v1, v2, b.flags, 0);
    forall i: nat | i < |b.up| ensures r.0[i] == Received(b)[i] {
      ArrivalsByCell(b.low, v1, v2, b.flags, i, 0);
      ArrivingIsFrom(b, i, 0);
    }
    forall j: nat | j < |b.low| ensures r.1[j] == Given(b)[j] {
      LeavesIsEmptied(b, j);
    }
    assert r.0 == Received(b) && r.1 == Given(b);
  }
}
