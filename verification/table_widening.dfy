/**
 Whether widening brings a row to the other table's width: exactly when, branch by branch,
 and rows it does not bring there.
 */
module TableWidening {
  import opened Wrappers
  import opened Counting
  import opened TableGrid
  import opened TableLayout
  import opened TableCarryLayout
  import opened TableArea
  import opened TableAdjust

  // Where the last of the row's cells that takes up a slot ends: zero when none does.
  function RightEdge(row: Row, inh: set<nat>, c: nat): (e: nat)
    ensures e <= End(row, inh, c)
  {
    if row == [] then 0 else
      var start := NextFree(inh, c);
      var own := if row[0].colspan >= 1 && row[0].rowspan >= 1 then start + row[0].colspan else 0;
      Max(own, RightEdge(row[1..], inh, start + row[0].colspan))
  }

  lemma {:induction false} EdgeIsTaken(row: Row, inh: set<nat>, c: nat)
    ensures forall col: nat {:trigger Slot(0, col)} :: Slot(0, col) in PlaceRow(row, inh, c) ==>
      col < RightEdge(row, inh, c)
    ensures var e := RightEdge(row, inh, c); e > 0 ==> Slot(0, e - 1) in PlaceRow(row, inh, c)
  {
    hide NextFree;
    if row != [] {
      EdgeIsTaken(row[1..], inh, NextFree(inh, c) + row[0].colspan);
    }
  }

  // A row is as wide as its own cells or the inherited columns reach, whichever is more.
  lemma WidthOfRow(row: Row, f: Occupancy, idx: nat)
    ensures Metric(row, f, idx).effectiveCols == Max(WidthOf(RowCols(f, 0)), RightEdge(row, RowCols(f, 0), 0))
  {
    hide PlaceRow, RowCols, WidthOf, End, RightEdge;
    var inh, cols := RowCols(f, 0), RowCols(Land(f, row), 0);
    var w := Max(WidthOf(inh), RightEdge(row, inh, 0));
    EdgeIsTaken(row, inh, 0);
    forall c | c in cols ensures c < w {
      assert Slot(0, c) in Land(f, row);
      assert Slot(0, c) in f ==> c in inh;
    }
    WidthMonotone(cols, w);
    if w > 0 {
      var last: nat := w - 1;
      assert last in inh ==> Slot(0, last) in f;
      assert Slot(0, last) in Land(f, row);
    }
  }

  lemma EdgeStep(row: Row, inh: set<nat>, c: nat, next: nat)
    requires row != [] && next == NextFree(inh, c) + row[0].colspan
    ensures End(row, inh, c) == End(row[1..], inh, next)
    ensures RightEdge(row, inh, c) ==
      Max(if row[0].colspan >= 1 && row[0].rowspan >= 1 then next else 0, RightEdge(row[1..], inh, next))
  {
    hide NextFree;
  }

  lemma {:induction false} EdgeOfSum(a: Row, b: Row, inh: set<nat>, c: nat)
    ensures End(a + b, inh, c) == End(b, inh, End(a, inh, c))
    ensures RightEdge(a + b, inh, c) == Max(RightEdge(a, inh, c), RightEdge(b, inh, End(a, inh, c)))
  {
    hide NextFree;
    if a == [] {
      assert a + b == b;
    } else {
      var next: nat := NextFree(inh, c) + a[0].colspan;
      hide RightEdge, End;
      assert (a + b)[0] == a[0] && (a + b)[1..] == a[1..] + b;
      EdgeStep(a, inh, c, next);
      EdgeStep(a + b, inh, c, next);
      EdgeOfSum(a[1..], b, inh, next);
    }
  }

  lemma OneCell(cell: Cell, inh: set<nat>, c: nat)
    ensures End([cell], inh, c) == NextFree(inh, c) + cell.colspan
    ensures RightEdge([cell], inh, c) == if cell.colspan >= 1 && cell.rowspan >= 1 then End([cell], inh, c) else 0
  {
    hide NextFree;
    assert [cell][1..] == [];
  }

  lemma WiderCell(front: Row, last: Cell, inh: set<nat>, c: nat, extra: nat)
    requires extra >= 1
    ensures RightEdge(front + [last.(colspan := last.colspan + extra)], inh, c) ==
      if last.rowspan >= 1 then End(front + [last], inh, c) + extra else RightEdge(front + [last], inh, c)
  {
    var e := End(front, inh, c);
    var wider := last.(colspan := last.colspan + extra);
    hide NextFree, RightEdge, End;
    EdgeOfSum(front, [last], inh, c);
    EdgeOfSum(front, [wider], inh, c);
    OneCell(last, inh, e);
    OneCell(wider, inh, e);
  }

  // Widening the last cell moves the row's end, and its edge when the cell takes up slots.
  lemma WithLastWider(row: Row, inh: set<nat>, c: nat, extra: nat)
    requires row != [] && extra >= 1
    ensures var n := |row| - 1;
      RightEdge(row[n := row[n].(colspan := row[n].colspan + extra)], inh, c) ==
      if row[n].rowspan >= 1 then End(row, inh, c) + extra else RightEdge(row, inh, c)
  {
    hide RightEdge, End;
    var n := |row| - 1;
    var last := row[n];
    assert row == row[..n] + [last];
    assert row[n := last.(colspan := last.colspan + extra)] == row[..n] + [last.(colspan := last.colspan + extra)];
    WiderCell(row[..n], last, inh, c, extra);
  }

  // The row is laid out like the reference row and takes its colspans.
  predicate TakesStructure(row: Row, visualCols: nat, reference: Row) {
    |row| == visualCols && Colspans(row) == Colspans(reference)
  }

  // The row's colspans and the inherited columns add up to the width. Only a row that overlaps
  // one of them, or has a cell that takes up no slot, is judged by where its cells reach.
  ghost predicate Fills(row: Row, inh: set<nat>, width: nat) {
    if Wide(row) && Tall(row) && NoOverlap(row, inh) then ActualCols(row) + |inh| == width
    else RightEdge(row, inh, 0) == width
  }

  lemma {:induction false} EdgeIsEnd(row: Row, inh: set<nat>, c: nat)
    requires row != [] && Wide(row) && Tall(row)
    ensures RightEdge(row, inh, c) == End(row, inh, c)
  {
    hide NextFree;
    if row[1..] != [] {
      EdgeIsEnd(row[1..], inh, NextFree(inh, c) + row[0].colspan);
    }
  }

  lemma PlacedApartFrom(row: Row, inh: set<nat>)
    requires NoOverlap(row, inh)
    ensures RowCols(PlaceRow(row, inh, 0), 0) !! inh
  {
    forall c | c in RowCols(PlaceRow(row, inh, 0), 0) ensures c !in inh {
      PlaceRowMembers(row, inh, 0, Slot(0, c));
      var k :| 0 <= k < |row| && Slot(0, c) in Block(Starts(row, inh, 0)[k], row[k]);
      assert Spans(Starts(row, inh, 0)[k], row[k], c);
    }
  }

  // No column left of the row's end stays free, so that counting columns finds its end.
  lemma FillsTo(row: Row, inh: set<nat>, width: nat)
    requires row != [] && WidthOf(inh) < width
    ensures Fills(row, inh, width) <==> RightEdge(row, inh, 0) == width
  {
    hide Wide, Tall, NoOverlap, PlaceRow, RightEdge, End, ActualCols, WidthOf, Interval;
    if Wide(row) && Tall(row) && NoOverlap(row, inh) {
      var placed, end := RowCols(PlaceRow(row, inh, 0), 0), End(row, inh, 0);
      EdgeIsEnd(row, inh, 0);
      PlacedCols(row, inh, 0);
      PlacedApartFrom(row, inh);
      NothingFree(row, inh, 0);
      PlaceRowBelowEnd(row, inh, 0);
      CountTo(placed, inh, end, width);
    }
  }

  lemma CountTo(placed: set<nat>, inh: set<nat>, end: nat, width: nat)
    requires placed !! inh && forall c :: c in placed ==> c < end
    requires forall c :: c in inh ==> c < width - 1
    requires forall c: nat {:trigger c in placed} {:trigger c in inh} :: c < end ==> c in inh || c in placed
    ensures |placed| + |inh| == width <==> end == width
  {
    hide Interval;
    assert |placed + inh| == |placed| + |inh|;
    var top: nat := if end >= width then end else width - 1;
    assert placed + inh <= Interval(0, top) && Interval(0, end) <= placed + inh;
    SubsetSize(placed + inh, Interval(0, top));
    SubsetSize(Interval(0, end), placed + inh);
  }

  // When a row with these inherited columns ends up as wide as the other table.
  ghost predicate Reaches(row: Row, inh: set<nat>, effectiveCols: nat, structure: seq<nat>, visualCols: nat,
                          targetCols: nat, reference: Row)
  {
    if row == [] || effectiveCols >= targetCols || ActualCols(row) >= targetCols then
      effectiveCols == targetCols
    else if TakesStructure(row, visualCols, reference) then
      |row| <= |structure| && Fills(WithStructure(row, structure), inh, targetCols)
    else
      // Its last cell takes up slots once widened, and its own cells made up the effective width.
      row[|row| - 1].rowspan >= 1 && End(row, inh, 0) == effectiveCols
  }

  // The width of an adjusted row is the target in exactly these cases.
  lemma AdjustReaches(row: Row, f: Occupancy, idx: nat, structure: seq<nat>, visualCols: nat, targetCols: nat,
                      reference: Row)
    ensures var effectiveCols := Metric(row, f, idx).effectiveCols;
      Metric(AdjustRow(row, effectiveCols, structure, visualCols, targetCols, reference), f, idx).effectiveCols ==
        targetCols
      <==> Reaches(row, RowCols(f, 0), effectiveCols, structure, visualCols, targetCols, reference)
  {
    hide RowCols, WidthOf, End, RightEdge, Metric, ActualCols, AdjustRow;
    WidthOfRow(row, f, idx);
    AdjustedWidth(row, f, idx, Metric(row, f, idx).effectiveCols, structure, visualCols, targetCols, reference);
    if row != [] && |row| <= |structure| && WidthOf(RowCols(f, 0)) < targetCols {
      FillsTo(WithStructure(row, structure), RowCols(f, 0), targetCols);
    }
  }

  // Where the adjusted row's cells reach, among any inherited columns.
  ghost function AdjustedEdge(row: Row, inh: set<nat>, effectiveCols: nat, structure: seq<nat>, visualCols: nat,
                             targetCols: nat, reference: Row): int
  {
    if row == [] || effectiveCols >= targetCols || ActualCols(row) >= targetCols then RightEdge(row, inh, 0)
    else if TakesStructure(row, visualCols, reference) then
      RightEdge(if |row| <= |structure| then WithStructure(row, structure) else row, inh, 0)
    else if row[|row| - 1].rowspan == 0 then RightEdge(row, inh, 0)
    else End(row, inh, 0) + (targetCols - effectiveCols)
  }

  // The adjusted row's width, whatever columns the rows above leave open once they are
  // adjusted too.
  lemma AdjustedWidth(row: Row, g: Occupancy, idx: nat, effectiveCols: nat, structure: seq<nat>, visualCols: nat,
                      targetCols: nat, reference: Row)
    ensures Metric(AdjustRow(row, effectiveCols, structure, visualCols, targetCols, reference), g, idx).effectiveCols ==
      Max(WidthOf(RowCols(g, 0)), AdjustedEdge(row, RowCols(g, 0), effectiveCols, structure, visualCols, targetCols,
        reference))
  {
    hide RowCols, WidthOf, End, RightEdge, Metric, ActualCols;
    WidthOfRow(AdjustRow(row, effectiveCols, structure, visualCols, targetCols, reference), g, idx);
    if row != [] && effectiveCols < targetCols && ActualCols(row) < targetCols
       && !TakesStructure(row, visualCols, reference) {
      WithLastWider(row, RowCols(g, 0), 0, targetCols - effectiveCols);
    }
  }

  // With nothing inherited, cells that all take up slots reach as far as their colspans add up.
  lemma {:induction false} EdgeOfWidths(row: Row, c: nat)
    requires forall k :: 0 <= k < |row| ==> row[k].colspan >= 1 && row[k].rowspan >= 1
    ensures RightEdge(row, {}, c) == if row == [] then 0 else c + ActualCols(row)
  {
    if row != [] {
      EdgeOfWidths(row[1..], c + row[0].colspan);
    }
  }

  lemma WidthAlone(row: Row)
    requires forall k :: 0 <= k < |row| ==> row[k].colspan >= 1 && row[k].rowspan >= 1
    ensures Metric(row, {}, 0).effectiveCols == ActualCols(row)
  {
    hide RightEdge, ActualCols;
    WidthOfRow(row, {}, 0);
    EdgeOfWidths(row, 0);
    assert RowCols({}, 0) == {} && WidthOf({}) == 0;
    if row == [] {
      assert ActualCols([]) == 0 by {
        NoCells();
      }
    }
  }

  lemma NoCells()
    ensures ActualCols([]) == 0
  {
  }

  lemma ThreeCells(a: Cell, b: Cell, c: Cell)
    ensures ActualCols([a, b, c]) == a.colspan + b.colspan + c.colspan
  {
    assert [a, b, c][1..] == [b, c] && [b, c][1..] == [c] && [c][1..] == [];
    assert ActualCols([c]) == c.colspan;
    assert ActualCols([b, c]) == b.colspan + c.colspan;
  }

  // Three cells take the colspans 2, 1 and 1 of a row in a table 5 columns wide, and end at 4.
  lemma StructureMisses()
    ensures var cell := Cell(1, 1, []);
      var row := [cell, cell, cell];
      && Metric(row, {}, 0).effectiveCols == 3
      && Metric(AdjustRow(row, 3, [2, 1, 1], 3, 5, row), {}, 0).effectiveCols == 4
  {
    var cell := Cell(1, 1, []);
    var row, wide := [cell, cell, cell], [Cell(2, 1, []), cell, cell];
    ThreeCells(cell, cell, cell);
    ThreeCells(Cell(2, 1, []), cell, cell);
    hide ActualCols;
    WidthAlone(row);
    WidthAlone(wide);
    hide Metric;
    assert WithStructure(row, [2, 1, 1]) == wide;
  }

  // A cell with a free column between it and an inherited one grows into the gap and misses.
  lemma WideningMisses()
    ensures var row, f := [Cell(1, 1, [])], {Slot(0, 2)};
      && Metric(row, f, 0).effectiveCols == 3
      && Metric(AdjustRow(row, 3, [], 0, 4, []), f, 0).effectiveCols == 3
  {
    var row, wide, f := [Cell(1, 1, [])], [Cell(2, 1, [])], {Slot(0, 2)};
    assert RowCols(f, 0) == {2};
    assert WidthOf({2}) == 3;
    assert row[1..] == [] && wide[1..] == [];
    assert NextFree({2}, 0) == 0;
    WidthOfRow(row, f, 0);
    WidthOfRow(wide, f, 0);
  }
}
