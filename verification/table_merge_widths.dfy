/**
 The widths of the rows a merge leaves: which table is widened, to which width, after which row
 of the other table, and which rows reach it.
 */
module TableMergeWidths {
  import opened TableGrid
  import opened TableLayout
  import opened TableCarry
  import opened TableAligned
  import opened TableAdjust
  import opened TableWidening
  import opened TableMerge

  // The row's colspans after its table was found narrower than the target: as they were if the
  // row is wide enough; those above one of the model row, if the row is spanned like the
  // reference row; else the last cell takes what is missing.
  ghost predicate TakesWidth(before: Row, after: Row, width: nat, target: nat, model: Row, reference: Row) {
    && |after| == |before|
    && forall k {:trigger after[k]} {:trigger before[k]} :: 0 <= k < |before| ==>
         && after[k].rowspan == before[k].rowspan
         && after[k].colspan ==
            if width >= target || ActualCols(before) >= target then before[k].colspan
            else if |before| == |model| && Colspans(before) == Colspans(reference) then
              (if model[k].colspan > 1 then model[k].colspan else before[k].colspan)
            else if k == |before| - 1 then before[k].colspan + (target - width)
            else before[k].colspan
  }

  lemma AdjustTakes(row: Row, width: nat, target: nat, model: Row, reference: Row)
    ensures TakesWidth(row, AdjustRow(row, width, Colspans(model), |model|, target, reference), width, target, model,
              reference)
  {
    hide ActualCols;
  }

  lemma SameWidth(a: Row, b: Row, f: Occupancy, idx: nat)
    requires SameShape(a, b)
    ensures Metric(a, f, idx) == Metric(b, f, idx)
  {
    ShapeFixesRow(a, b, RowCols(f, 0), 0);
  }

  // Row i of the table, left as x: with its spans, or, in the narrower table, with the spans that
  // brings, and as wide as the target in its own table exactly in the cases of `Reaches`.
  ghost predicate Fitted(rows: seq<Row>, i: nat, x: Row, narrower: bool, target: nat, model: Row, reference: Row)
    requires i < |rows|
  {
    if narrower then
      var f, width := Carry(rows[..i], {}), EffectiveCols(rows, {})[i];
      && TakesWidth(rows[i], x, width, target, model, reference)
      && (Metric(x, f, i).effectiveCols == target <==>
            Reaches(rows[i], RowCols(f, 0), width, Colspans(model), |model|, target, reference))
    else SameShape(x, rows[i])
  }

  lemma {:induction false} WidthAt(rows: seq<Row>, f: Occupancy, i: nat)
    requires i < |rows|
    ensures EffectiveCols(rows, f)[i] == Metric(rows[i], Carry(rows[..i], f), i).effectiveCols
  {
    hide Metric, Advance;
    if i == 0 {
      assert rows[..0] == [];
      MetricIndex(rows[0], f, 0, i);
    } else {
      WidthAt(rows[1..], Advance(f, rows[0]), i - 1);
      assert rows[..i][1..] == rows[1..][..i - 1] && rows[1..][i - 1] == rows[i];
      MetricIndex(rows[i], Carry(rows[..i], f), i - 1, i);
    }
  }

  lemma MetricIndex(row: Row, f: Occupancy, i: nat, j: nat)
    ensures Metric(row, f, i).effectiveCols == Metric(row, f, j).effectiveCols
  {
  }

  lemma AdjustedFits(rows: seq<Row>, i: nat, x: Row, target: nat, model: Row, reference: Row)
    requires i < |rows|
    requires SameShape(x, AdjustRow(rows[i], EffectiveCols(rows, {})[i], Colspans(model), |model|, target, reference))
    ensures Fitted(rows, i, x, true, target, model, reference)
  {
    hide EffectiveCols, Carry, Metric, Reaches, AdjustRow, ActualCols, SameShape, TakesWidth;
    var f, width := Carry(rows[..i], {}), EffectiveCols(rows, {})[i];
    var adjusted := AdjustRow(rows[i], width, Colspans(model), |model|, target, reference);
    WidthAt(rows, {}, i);
    AdjustTakes(rows[i], width, target, model, reference);
    SameTakes(rows[i], adjusted, x, width, target, model, reference);
    AdjustReaches(rows[i], f, i, Colspans(model), |model|, target, reference);
    SameWidth(x, adjusted, f, i);
  }

  lemma SameTakes(before: Row, a: Row, b: Row, width: nat, target: nat, model: Row, reference: Row)
    requires TakesWidth(before, a, width, target, model, reference) && SameShape(b, a)
    ensures TakesWidth(before, b, width, target, model, reference)
  {
    hide ActualCols;
  }

  lemma WidenedFits(prev: seq<Row>, rows: seq<Row>, cut: nat, i: nat, x: Row)
    requires prev != [] && cut < |rows|
    ensures var (prev1, rows1) := Widened(prev, rows, cut);
      var w1, w2 := TotalCols(prev, {}), TotalCols(rows, {});
      && (i < |prev| && SameShape(x, prev1[i]) ==> Fitted(prev, i, x, w2 > w1, w2, rows[cut], prev[|prev| - 1]))
      && (cut <= i < |rows| && SameShape(x, rows1[i]) ==>
            Fitted(rows, i, x, w1 > w2, w1, prev[|prev| - 1], rows[cut]))
  {
    hide EffectiveCols, TotalCols, Fitted, AdjustRow;
    var (prev1, rows1) := Widened(prev, rows, cut);
    var w1, w2 := TotalCols(prev, {}), TotalCols(rows, {});
    if i < |prev| && SameShape(x, prev1[i]) {
      if w2 > w1 {
        AdjustedFits(prev, i, x, w2, rows[cut], prev[|prev| - 1]);
      } else {
        KeptFits(prev, i, x, w2, rows[cut], prev[|prev| - 1]);
      }
    }
    if cut <= i < |rows| && SameShape(x, rows1[i]) {
      if w1 > w2 {
        AdjustedFits(rows, i, x, w1, prev[|prev| - 1], rows[cut]);
      } else {
        KeptFits(rows, i, x, w1, prev[|prev| - 1], rows[cut]);
      }
    }
  }

  lemma KeptFits(rows: seq<Row>, i: nat, x: Row, target: nat, model: Row, reference: Row)
    requires i < |rows| && SameShape(x, rows[i])
    ensures Fitted(rows, i, x, false, target, model, reference)
  {
  }

  // ------------------------------------------------ shapes after the cell merge

  lemma ShapeItself(row: Row)
    ensures SameShape(row, row)
  {
  }

  lemma InsertedWithin(row: Row, i: nat, cell: Cell)
    requires i <= |row|
    ensures multiset(row) <= multiset(InsertAt(row, i, cell))
  {
    assert row == row[..i] + row[i..];
  }

  lemma {:induction false} InsertAllWithin(rows: seq<Row>, moves: seq<Move>, t: nat)
    requires t < |rows| && forall m :: m in moves ==> m.row == t
    ensures multiset(rows[t]) <= multiset(InsertAll(rows, moves)[t])
    ensures forall i {:trigger rows[i]} :: 0 <= i < |rows| && i != t ==> InsertAll(rows, moves)[i] == rows[i]
    decreases |moves|
  {
    if moves != [] {
      var m := moves[0];
      InsertedWithin(rows[t], InsertIndex(RowStarts(rows, t, {}), m.start), m.cell);
      var next := InsertBefore(rows, t, m.start, m.cell);
      InsertAllWithin(next, moves[1..], t);
      forall i {:trigger rows[i]} | 0 <= i < |rows| && i != t ensures InsertAll(rows, moves)[i] == rows[i] {
        assert next[i] == rows[i];
      }
    }
  }

  lemma CarryDownWithin(rows: seq<Row>, h: nat)
    requires h + 1 < |rows|
    ensures multiset(rows[h + 1]) <= multiset(CarryDown(rows, h)[h + 1])
    ensures forall i {:trigger rows[i]} :: 0 <= i < |rows| && i != h + 1 ==> CarryDown(rows, h)[i] == rows[i]
  {
    hide InsertAll, RowStarts, SortMoves, CarriedCells;
    var carried := CarriedCells(rows[h], RowStarts(rows, h, {}), h + 1);
    SortKeepsRow(carried, h + 1);
    InsertAllWithin(rows, SortMoves(carried), h + 1);
  }

  // What stands for row i of the kept rows: the row itself by its spans, or, where a dropped row's
  // placeholders sank, a row with its cells among them.
  ghost predicate StandsFor(rows: seq<Row>, kept: seq<Row>, cut: nat, dropped: nat, i: nat)
    requires cut + dropped <= i < |rows| && |kept| == |rows| - cut - dropped
  {
    if dropped == 1 && i == cut + 1 then multiset(rows[i]) <= multiset(kept[i - cut - dropped])
    else SameShape(kept[i - cut - dropped], rows[i])
  }

  lemma CellMergeStands(prev: seq<Row>, tail: Occupancy, cur: seq<Row>, flags: seq<int>, cut: nat, dropped: nat)
    requires cut <= |cur|
    requires dropped ==
      if MergesCells(prev, cur, flags, cut) && !RowHasSemanticContent(MergedPair(prev, tail, cur, flags, cut).1) then 1
      else 0
    ensures forall i {:trigger prev[i]} :: 0 <= i < |prev| ==>
      SameShape(PreviousAfterCellMerge(prev, tail, cur, flags, cut)[i], prev[i])
    ensures cut + dropped <= |cur|
    ensures |KeptAfterCellMerge(prev, tail, cur, flags, cut)| == |cur| - cut - dropped
    ensures forall i: nat {:trigger StandsFor(cur, KeptAfterCellMerge(prev, tail, cur, flags, cut), cut, dropped, i)} ::
      cut + dropped <= i < |cur| ==>
        StandsFor(cur, KeptAfterCellMerge(prev, tail, cur, flags, cut), cut, dropped, i)
  {
    hide CarryDown, RowHasSemanticContent, MergedPair, SameShape;
    var kept := KeptAfterCellMerge(prev, tail, cur, flags, cut);
    forall row: Row ensures SameShape(row, row) {
      ShapeItself(row);
    }
    if MergesCells(prev, cur, flags, cut) {
      MergedShape(prev, tail, cur, flags, cut);
      var rows := cur[cut := MergedPair(prev, tail, cur, flags, cut).1];
      if cut + 1 < |cur| {
        CarryDownWithin(rows, cut);
      }
      forall i: nat | cut + dropped <= i < |cur| ensures StandsFor(cur, kept, cut, dropped, i) {
        assert i != cut ==> rows[i] == cur[i];
        assert dropped == 1 ==> kept[i - cut - dropped] == CarryDown(rows, cut)[i];
        assert dropped == 0 ==> kept[i - cut - dropped] == rows[i];
      }
    } else {
      forall i: nat | cut + dropped <= i < |cur| ensures StandsFor(cur, kept, cut, dropped, i) {
        assert kept[i - cut - dropped] == cur[i];
      }
    }
  }

  // ------------------------------------------------------ the whole merge

  // The kept rows of the current table, by where they end up in the merged one.
  ghost predicate KeptFitted(prev: seq<Row>, rows: seq<Row>, cut: nat, dropped: nat, out: seq<Row>, i: nat)
    requires prev != [] && cut + dropped <= i < |rows| && |out| == |prev| + |rows| - cut - dropped
  {
    var w1, w2, x := TotalCols(prev, {}), TotalCols(rows, {}), out[|prev| + i - cut - dropped];
    if dropped == 1 && i == cut + 1 then
      exists y :: Fitted(rows, i, y, w1 > w2, w1, prev[|prev| - 1], rows[cut]) && multiset(y) <= multiset(x)
    else Fitted(rows, i, x, w1 > w2, w1, prev[|prev| - 1], rows[cut])
  }

  // Of the two tables, the current one with its covered placeholders clipped, the narrower one's
  // rows are widened to the other one's width, after the boundary row of that one and by
  // comparison with its own; the wider one's rows, and both tables' when they are as wide, keep
  // their spans. Cells that sank into a row come beside its own.
  lemma MergeWidens(prev: seq<Row>, cur: seq<Row>, flags: seq<int>, cut: nat)
    requires prev != [] && cut < |cur|
    ensures var rows := cur[..cut] + Clip(Carry(prev, {}), cur[cut..]);
      var w1, w2 := TotalCols(prev, {}), TotalCols(rows, {});
      var out, dropped := MergedRows(prev, cur, flags, cut, true), DroppedRows(prev, cur, flags, cut);
      && |rows| == |cur| && cut + dropped <= |rows| && |out| == |prev| + |rows| - cut - dropped
      && (forall i: nat {:trigger out[i]} :: i < |prev| ==>
            Fitted(prev, i, out[i], w2 > w1, w2, rows[cut], prev[|prev| - 1]))
      && (forall i: nat :: cut + dropped <= i < |rows| ==>
            KeptFitted(prev, rows, cut, dropped, out, i))
  {
    hide Carry, TotalCols, Fitted, Clip, Widened, SameShape, StandsFor, RowHasSemanticContent, MergedPair;
    hide PreviousAfterCellMerge, KeptAfterCellMerge, BorderOf, Received, Given;
    var rows := cur[..cut] + Clip(Carry(prev, {}), cur[cut..]);
    assert rows == Clipped(prev, cur, cut);
    var (prev1, rows1) := Widened(prev, rows, cut);
    var tail, dropped := Carry(prev1, {}), DroppedRows(prev, cur, flags, cut);
    var kept := KeptAfterCellMerge(prev1, tail, rows1, flags, cut);
    var out := MergedRows(prev, cur, flags, cut, true);
    assert out == PreviousAfterCellMerge(prev1, tail, rows1, flags, cut) + kept;
    if MergesCells(prev1, rows1, flags, cut) {
      MergedPairIsAligned(prev1, tail, rows1, flags, cut);
    }
    CellMergeStands(prev1, tail, rows1, flags, cut, dropped);
    forall i: nat {:trigger out[i]} | i < |prev|
      ensures Fitted(prev, i, out[i], TotalCols(rows, {}) > TotalCols(prev, {}), TotalCols(rows, {}), rows[cut],
                prev[|prev| - 1])
    {
      assert prev1[i] == prev1[i] && out[i] == PreviousAfterCellMerge(prev1, tail, rows1, flags, cut)[i];
      WidenedFits(prev, rows, cut, i, out[i]);
    }
    forall i: nat | cut + dropped <= i < |rows|
      ensures KeptFitted(prev, rows, cut, dropped, out, i)
    {
      assert StandsFor(rows1, kept, cut, dropped, i);
      assert out[|prev| + i - cut - dropped] == kept[i - cut - dropped];
      KeptRowFits(prev, rows, rows1, kept, out, cut, dropped, i);
    }
  }

  lemma KeptRowFits(prev: seq<Row>, rows: seq<Row>, rows1: seq<Row>, kept: seq<Row>, out: seq<Row>, cut: nat,
                  dropped: nat, i: nat)
    requires prev != [] && cut + dropped <= i < |rows| && |out| == |prev| + |rows| - cut - dropped
    requires rows1 == Widened(prev, rows, cut).1 && |kept| == |rows| - cut - dropped
    requires StandsFor(rows1, kept, cut, dropped, i) && out[|prev| + i - cut - dropped] == kept[i - cut - dropped]
    ensures KeptFitted(prev, rows, cut, dropped, out, i)
  {
    hide Widened, TotalCols, Fitted, SameShape;
    ShapeItself(rows1[i]);
    WidenedFits(prev, rows, cut, i, rows1[i]);
    WidenedFits(prev, rows, cut, i, kept[i - cut - dropped]);
  }

  // With an empty previous table, or nothing kept of the current one, nothing is widened.
  lemma NothingToWiden(prev: seq<Row>, cur: seq<Row>, flags: seq<int>, cut: nat, bodies: bool)
    requires prev == [] || cut >= |cur|
    ensures MergedRows(prev, cur, flags, cut, bodies) ==
      prev + if bodies && cut < |cur| then Clip(Carry(prev, {}), cur[cut..]) else []
  {
    hide Clip, Carry;
    if cut < |cur| {
      var clipped := cur[..cut] + Clip(Carry(prev, {}), cur[cut..]);
      assert clipped[cut..] == Clip(Carry(prev, {}), cur[cut..]);
    } else {
      assert prev + [] == prev;
    }
  }
}
