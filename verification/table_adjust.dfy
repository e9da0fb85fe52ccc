/**
 The two mutators that run before rows are appended: widening rows to the other
 table's width, and clipping blank placeholders covered by the previous page.
 */
module TableAdjust {
  import opened TableGrid
  import opened TableLayout
  import opened TableCarry
  import opened TableCellMerge

  // ------------------------------------------------------------- widening

  function Colspans(row: Row): (s: seq<nat>)
    ensures |s| == |row| && forall i :: 0 <= i < |row| ==> s[i] == row[i].colspan
  {
    seq(|row|, i requires 0 <= i < |row| => row[i].colspan)
  }

  // The row with its colspans taken from a reference structure.
  function WithStructure(row: Row, structure: seq<nat>): (r: Row)
    requires |row| <= |structure|
    ensures |r| == |row|
    ensures forall i :: 0 <= i < |row| ==>
      r[i] == row[i].(colspan := if structure[i] > 1 then structure[i] else row[i].colspan)
  {
    seq(|row|, i requires 0 <= i < |row| =>
      row[i].(colspan := if structure[i] > 1 then structure[i] else row[i].colspan))
  }

  function AdjustRow(row: Row, effectiveCols: nat, structure: seq<nat>, visualCols: nat, targetCols: nat,
                     reference: Row): (r: Row)
    ensures |r| == |row|
    ensures forall i :: 0 <= i < |row| ==> r[i].content == row[i].content && r[i].rowspan == row[i].rowspan
  {
    if row == [] || effectiveCols >= targetCols || ActualCols(row) >= targetCols then row
    else if |row| == visualCols && Colspans(row) == Colspans(reference) then
      if |row| <= |structure| then WithStructure(row, structure) else row
    else
      var last := row[|row| - 1];
      row[|row| - 1 := last.(colspan := last.colspan + (targetCols - effectiveCols))]
  }

  function AdjustRows(rows: seq<Row>, startIdx: nat, endIdx: nat, rowEffectiveCols: seq<nat>,
                      structure: seq<nat>, visualCols: nat, targetCols: nat, reference: Row): (r: seq<Row>)
    requires startIdx <= endIdx <= |rows| == |rowEffectiveCols|
    ensures |r| == |rows|
    ensures forall i {:trigger r[i]} {:trigger rows[i]} :: 0 <= i < |rows| ==>
      r[i] == if startIdx <= i < endIdx
              then AdjustRow(rows[i], rowEffectiveCols[i], structure, visualCols, targetCols, reference)
              else rows[i]
  {
    seq(|rows|, i requires 0 <= i < |rows| =>
      if startIdx <= i < endIdx
      then AdjustRow(rows[i], rowEffectiveCols[i], structure, visualCols, targetCols, reference)
      else rows[i])
  }

  // The sum of the row's colspans.
  method CalculateRowColumns(row: Row) returns (columns: nat)
    ensures columns == ActualCols(row)
  {
    columns := 0;
    assert row[0..] == row;
    for i := 0 to |row|
      invariant columns + ActualCols(row[i..]) == ActualCols(row)
    {
      assert row[i..][0] == row[i] && row[i..][1..] == row[i + 1..];
      columns := columns + row[i].colspan;
    }
    assert row[|row|..] == [];
  }

  method CheckRowColumnsMatch(row1: Row, row2: Row) returns (same: bool)
    ensures same <==> Colspans(row1) == Colspans(row2)
  {
    if |row1| != |row2| {
      return false;
    }
    for i := 0 to |row1|
      invariant forall k {:trigger row1[k]} {:trigger row2[k]} :: 0 <= k < i ==> row1[k].colspan == row2[k].colspan
    {
      if row1[i].colspan != row2[i].colspan {
        assert Colspans(row1)[i] != Colspans(row2)[i];
        return false;
      }
    }
    return true;
  }

  // One row: skipped, given the reference's colspans above one, or its last cell widened.
  method AdjustOneRow(row: Row, effectiveCols: nat, structure: seq<nat>, visualCols: nat, targetCols: nat,
                      reference: Row)
    returns (result: Row)
    ensures result == AdjustRow(row, effectiveCols, structure, visualCols, targetCols, reference)
  {
    result := row;
    if row == [] {
      return;
    }
    var rowCols := CalculateRowColumns(row);
    if effectiveCols >= targetCols || rowCols >= targetCols {
      return;
    }
    var matches := CheckRowColumnsMatch(row, reference);
    if |row| == visualCols && matches {
      if |row| <= |structure| {
        for i := 0 to |row|
          invariant |result| == |row|
          invariant forall k {:trigger result[k]} :: 0 <= k < |row| ==>
            result[k] == row[k].(colspan := if k < i && structure[k] > 1 then structure[k] else row[k].colspan)
        {
          if structure[i] > 1 {
            result := result[i := result[i].(colspan := structure[i])];
          }
        }
        assert result == WithStructure(row, structure);
      }
    } else {
      var last := row[|row| - 1];
      result := row[|row| - 1 := last.(colspan := last.colspan + (targetCols - effectiveCols))];
    }
  }

  method AdjustTableRowsColspan(rows: seq<Row>, startIdx: nat, endIdx: nat, rowEffectiveCols: seq<nat>,
                                structure: seq<nat>, visualCols: nat, targetCols: nat, reference: Row)
    returns (result: seq<Row>)
    requires startIdx <= endIdx <= |rows| == |rowEffectiveCols|
    ensures result == AdjustRows(rows, startIdx, endIdx, rowEffectiveCols, structure, visualCols, targetCols, reference)
  {
    hide AdjustRow;
    result := rows;
    for i := startIdx to endIdx
      invariant |result| == |rows|
      invariant forall k {:trigger result[k]} {:trigger rows[k]} :: 0 <= k < |rows| ==>
        result[k] == if startIdx <= k < i
                     then AdjustRow(rows[k], rowEffectiveCols[k], structure, visualCols, targetCols, reference)
                     else rows[k]
    {
      var row := AdjustOneRow(rows[i], rowEffectiveCols[i], structure, visualCols, targetCols, reference);
      result := result[i := row];
    }
  }

  lemma {:induction false} SameContents(a: Row, b: Row)
    requires |a| == |b| && forall i :: 0 <= i < |a| ==> a[i].content == b[i].content
    ensures RowSemantic(a) == RowSemantic(b)
  {
    if a != [] {
      SameContents(a[1..], b[1..]);
    }
  }

  lemma AdjustKeepsContent(row: Row, effectiveCols: nat, structure: seq<nat>, visualCols: nat, targetCols: nat,
                           reference: Row)
    ensures RowSemantic(AdjustRow(row, effectiveCols, structure, visualCols, targetCols, reference)) == RowSemantic(row)
  {
    SameContents(row, AdjustRow(row, effectiveCols, structure, visualCols, targetCols, reference));
  }

  // ------------------------------------------------------------- clipping

  predicate OpenUnder(occ: Occupancy, r: nat, start: nat, colspan: nat) {
    forall c :: start <= c < start + colspan ==> Slot(r, c) in occ
  }

  // Rows, from row r on, that the occupancy covers under the whole cell.
  function OverlapRows(occ: Occupancy, r: nat, start: nat, cell: Cell, from: nat): (n: nat)
    requires from <= cell.rowspan
    ensures from <= n <= cell.rowspan
    ensures forall x: nat {:trigger OpenUnder(occ, x, start, cell.colspan)} :: r + from <= x < r + n ==>
      OpenUnder(occ, x, start, cell.colspan)
    ensures n < cell.rowspan ==> !OpenUnder(occ, r + n, start, cell.colspan)
    decreases cell.rowspan - from
  {
    if from < cell.rowspan && OpenUnder(occ, r + from, start, cell.colspan)
    then OverlapRows(occ, r, start, cell, from + 1) else from
  }

  predicate Clips(occ: Occupancy, r: nat, start: nat, cell: Cell, height: nat) {
    && cell.rowspan > 1 && !HasSemanticContent(cell) && cell.colspan > 0
    && var n := OverlapRows(occ, r, start, cell, 0);
       n > 0 && (n == cell.rowspan || r + n < height)
  }

  function ClipRow(occ: Occupancy, r: nat, row: Row, starts: seq<nat>, height: nat): (kept: Row)
    requires |row| == |starts|
  {
    if row == [] then [] else
      (if Clips(occ, r, starts[0], row[0], height) then [] else [row[0]])
      + ClipRow(occ, r, row[1..], starts[1..], height)
  }

  // What is left of the clipped cells, below the covered rows.
  function ClipMoves(occ: Occupancy, r: nat, row: Row, starts: seq<nat>, height: nat): (moves: seq<Move>)
    requires |row| == |starts|
    ensures forall m :: m in moves ==> m.row < height && !HasSemanticContent(m.cell)
  {
    if row == [] then [] else
      var n := OverlapRows(occ, r, starts[0], row[0], 0);
      (if Clips(occ, r, starts[0], row[0], height) && n < row[0].rowspan
       then [Move(r + n, starts[0], row[0].(rowspan := row[0].rowspan - n))] else [])
      + ClipMoves(occ, r, row[1..], starts[1..], height)
  }

  ghost function ClipRows(occ: Occupancy, rows: seq<Row>, upTo: nat): (kept: seq<Row>)
    requires upTo <= |rows|
    ensures |kept| == upTo
  {
    if upTo == 0 then [] else
      ClipRows(occ, rows, upTo - 1)
      + [ClipRow(occ, upTo - 1, rows[upTo - 1], RowStarts(rows, upTo - 1, {}), |rows|)]
  }

  ghost function AllMoves(occ: Occupancy, rows: seq<Row>, upTo: nat): (moves: seq<Move>)
    requires upTo <= |rows|
    ensures forall m :: m in moves ==> m.row < |rows| && !HasSemanticContent(m.cell)
  {
    if upTo == 0 then [] else
      AllMoves(occ, rows, upTo - 1)
      + ClipMoves(occ, upTo - 1, rows[upTo - 1], RowStarts(rows, upTo - 1, {}), |rows|)
  }

  lemma SortedMovesFit(moves: seq<Move>, height: nat)
    requires forall m :: m in moves ==> m.row < height && !HasSemanticContent(m.cell)
    ensures forall m :: m in SortMoves(moves) ==> m.row < height && !HasSemanticContent(m.cell)
  {
    forall m | m in SortMoves(moves) ensures m.row < height && !HasSemanticContent(m.cell) {
      assert m in multiset(SortMoves(moves));
    }
  }

  ghost function Clip(occ: Occupancy, rows: seq<Row>): (r: seq<Row>)
    ensures |r| == |rows|
  {
    var moves := AllMoves(occ, rows, |rows|);
    SortedMovesFit(moves, |rows|);
    InsertAll(ClipRows(occ, rows, |rows|), SortMoves(moves))
  }

  lemma {:induction false} ClipRowKeepsContent(occ: Occupancy, r: nat, row: Row, starts: seq<nat>, height: nat)
    requires |row| == |starts|
    ensures RowSemantic(ClipRow(occ, r, row, starts, height)) == RowSemantic(row)
  {
    if row != [] {
      ClipRowKeepsContent(occ, r, row[1..], starts[1..], height);
      SemanticEmpty(row[0].content);
      var rest := ClipRow(occ, r, row[1..], starts[1..], height);
      ConsSemantic(row[0], rest);
      if Clips(occ, r, starts[0], row[0], height) {
        assert [] + rest == rest;
      }
    }
  }

  lemma {:induction false} ClipRowsKeepContent(occ: Occupancy, rows: seq<Row>, upTo: nat)
    requires upTo <= |rows|
    ensures RowsSemantic(ClipRows(occ, rows, upTo)) == RowsSemantic(rows[..upTo])
  {
    if upTo > 0 {
      ClipRowsKeepContent(occ, rows, upTo - 1);
      ClipRowKeepsContent(occ, upTo - 1, rows[upTo - 1], RowStarts(rows, upTo - 1, {}), |rows|);
      var a, b := RowsSemantic(ClipRows(occ, rows, upTo - 1)), RowsSemantic(rows[..upTo - 1]);
      hide RowSemantic, ClipRow, RowStarts;
      forall i | 0 <= i < upTo ensures RowsSemantic(ClipRows(occ, rows, upTo))[i] == RowSemantic(rows[i]) {
        if i < upTo - 1 {
          assert a[i] == b[i] == RowSemantic(rows[..upTo - 1][i]);
        }
      }
    }
  }

  // Clipping drops and moves blank cells only: each row keeps its semantic nodes, in order.
  lemma ClipKeepsContent(occ: Occupancy, rows: seq<Row>)
    ensures RowsSemantic(Clip(occ, rows)) == RowsSemantic(rows)
  {
    var moves := AllMoves(occ, rows, |rows|);
    SortedMovesFit(moves, |rows|);
    ClipRowsKeepContent(occ, rows, |rows|);
    assert rows[..|rows|] == rows;
    InsertAllBlank(ClipRows(occ, rows, |rows|), SortMoves(moves));
  }

  lemma ClipStep(occ: Occupancy, r: nat, row: Row, starts: seq<nat>, height: nat, k: nat, kept: Row, moves: seq<Move>)
    requires k < |row| == |starts| && ClippedTo(occ, r, row, starts, height, k, kept, moves)
    ensures var cell, n := row[k], OverlapRows(occ, r, starts[k], row[k], 0);
      var clips := Clips(occ, r, starts[k], cell, height);
      ClippedTo(occ, r, row, starts, height, k + 1,
        if clips then kept else kept + [cell],
        if clips && n < cell.rowspan then moves + [Move(r + n, starts[k], cell.(rowspan := cell.rowspan - n))]
          else moves)
  {
    hide Clips, OverlapRows;
    assert row[k..][0] == row[k] && row[k..][1..] == row[k + 1..];
    assert starts[k..][0] == starts[k] && starts[k..][1..] == starts[k + 1..];
  }

  // What is kept and moved of the first k cells, with what the rest gives, is the whole.
  ghost predicate ClippedTo(occ: Occupancy, r: nat, row: Row, starts: seq<nat>, height: nat, k: nat, kept: Row,
                            moves: seq<Move>)
    requires |row| == |starts| && k <= |row|
  {
    && kept + ClipRow(occ, r, row[k..], starts[k..], height) == ClipRow(occ, r, row, starts, height)
    && moves + ClipMoves(occ, r, row[k..], starts[k..], height) == ClipMoves(occ, r, row, starts, height)
  }

  lemma ClippedToEnds(occ: Occupancy, r: nat, row: Row, starts: seq<nat>, height: nat, kept: Row, moves: seq<Move>)
    requires |row| == |starts|
    ensures ClippedTo(occ, r, row, starts, height, 0, [], [])
    ensures ClippedTo(occ, r, row, starts, height, |row|, kept, moves) ==>
      kept == ClipRow(occ, r, row, starts, height) && moves == ClipMoves(occ, r, row, starts, height)
  {
    hide Clips, OverlapRows;
    assert row[0..] == row && starts[0..] == starts;
    assert row[|row|..] == [] && starts[|row|..] == [];
    assert ClipRow(occ, r, [], [], height) == [] && ClipMoves(occ, r, [], [], height) == [];
    hide ClipRow, ClipMoves;
  }

  method ClipOneRow(occ: Occupancy, r: nat, row: Row, starts: seq<nat>, height: nat)
    returns (kept: Row, moves: seq<Move>, clipped: bool)
    requires |row| == |starts|
    ensures kept == ClipRow(occ, r, row, starts, height)
    ensures moves == ClipMoves(occ, r, row, starts, height)
    ensures !clipped ==> kept == row && moves == []
  {
    hide Clips, OverlapRows, ClippedTo, ClipRow, ClipMoves;
    kept, moves, clipped := [], [], false;
    ClippedToEnds(occ, r, row, starts, height, kept, moves);
    for k := 0 to |row|
      invariant ClippedTo(occ, r, row, starts, height, k, kept, moves)
      invariant !clipped ==> kept == row[..k] && moves == []
    {
      ClipStep(occ, r, row, starts, height, k, kept, moves);
      var cell := row[k];
      if Clips(occ, r, starts[k], cell, height) {
        clipped := true;
        var n := OverlapRows(occ, r, starts[k], cell, 0);
        if n < cell.rowspan {
          moves := moves + [Move(r + n, starts[k], cell.(rowspan := cell.rowspan - n))];
        }
      } else {
        kept := kept + [cell];
      }
    }
    ClippedToEnds(occ, r, row, starts, height, kept, moves);
    assert row[..|row|] == row;
  }

  method ClipOverlappedBlankRowspanCells(rows: seq<Row>, initialOccupied: Occupancy)
    returns (result: seq<Row>, clipped: bool)
    ensures result == Clip(initialOccupied, rows)
    ensures !clipped ==> result == rows
  {
    hide ClipRow, ClipMoves, RowStarts, InsertAll, SortMoves;
    var kept: seq<Row> := [];
    var moves: seq<Move> := [];
    clipped := false;
    for r := 0 to |rows|
      invariant kept == ClipRows(initialOccupied, rows, r)
      invariant moves == AllMoves(initialOccupied, rows, r)
      invariant !clipped ==> kept == rows[..r] && moves == []
    {
      var starts := BuildVisualColMapping(rows, r, {});
      var keptRow, rowMoves, rowClipped := ClipOneRow(initialOccupied, r, rows[r], starts, |rows|);
      kept := kept + [keptRow];
      moves := moves + rowMoves;
      clipped := clipped || rowClipped;
    }
    SortedMovesFit(moves, |rows|);
    if !clipped {
      NothingToInsert(rows);
      assert rows[..|rows|] == rows;
    }
    result := InsertMoves(kept, SortMoves(moves));
  }

  lemma NothingToInsert(rows: seq<Row>)
    ensures SortMoves([]) == [] && InsertAll(rows, SortMoves([])) == rows
  {
  }
}
