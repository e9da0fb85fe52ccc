/**
 Counting slots: what a row takes and what stays open below it, by the areas of its cells.
 */
module TableArea {
  import opened TableGrid
  import opened TableLayout
  import opened TableCarry

  // Every open column is open from the row scanned next down to some row without a break.
  ghost predicate Hanging(f: Occupancy) {
    Shift(f, 1) <= f
  }

  lemma {:induction false} TopIsOpen(f: Occupancy, s: Slot)
    requires Hanging(f) && s in f
    ensures s.col in RowCols(f, 0)
    decreases s.row
  {
    if s.row > 0 {
      var above := Slot(s.row - 1, s.col);
      assert above in Shift(f, 1);
      TopIsOpen(f, above);
    }
  }

  lemma {:induction false} PlacedHangs(row: Row, inh: set<nat>, c: nat)
    ensures Hanging(PlaceRow(row, inh, c))
  {
    if row != [] {
      PlacedHangs(row[1..], inh, NextFree(inh, c) + row[0].colspan);
    }
  }

  lemma AdvanceHangs(f: Occupancy, row: Row)
    requires Hanging(f)
    ensures Hanging(Advance(f, row))
  {
    PlacedHangs(row, RowCols(f, 0), 0);
    hide PlaceRow;
  }

  // Whatever a scan from scratch leaves open hangs.
  lemma {:induction false} CarryHangs(rows: seq<Row>, f: Occupancy)
    requires Hanging(f)
    ensures Hanging(Carry(rows, f))
  {
    hide Hanging, Advance;
    if rows != [] {
      AdvanceHangs(f, rows[0]);
      CarryHangs(rows[1..], Advance(f, rows[0]));
    }
  }

  predicate Tall(row: Row) {
    forall k :: 0 <= k < |row| ==> row[k].rowspan >= 1
  }

  // Left of its end a row leaves no column free.
  lemma {:induction false} NothingFree(row: Row, inh: set<nat>, c: nat)
    requires Tall(row)
    ensures forall col: nat {:trigger Slot(0, col)} {:trigger col in inh} :: c <= col < End(row, inh, c) ==>
      col in inh || Slot(0, col) in PlaceRow(row, inh, c)
  {
    if row != [] {
      NothingFree(row[1..], inh, NextFree(inh, c) + row[0].colspan);
    }
  }

  lemma {:induction false} PlacedCols(row: Row, inh: set<nat>, c: nat)
    requires Tall(row)
    ensures |RowCols(PlaceRow(row, inh, c), 0)| == ActualCols(row)
  {
    hide NextFree;
    if row != [] {
      var start := NextFree(inh, c);
      var others := PlaceRow(row[1..], inh, start + row[0].colspan);
      assert PlaceRow(row, inh, c) == Block(start, row[0]) + others;
      assert ActualCols(row) == row[0].colspan + ActualCols(row[1..]);
      PlaceRowBelowEnd(row[1..], inh, start + row[0].colspan);
      hide PlaceRow, ActualCols;
      PlacedCols(row[1..], inh, start + row[0].colspan);
      FirstColsApart(start, row[0], others);
    } else {
      assert RowCols(PlaceRow(row, inh, c), 0) == {};
    }
  }

  lemma FirstColsApart(start: nat, cell: Cell, others: Occupancy)
    requires cell.rowspan >= 1
    requires forall s {:trigger s in others} :: s in others ==> s.col >= start + cell.colspan
    ensures |RowCols(Block(start, cell) + others, 0)| == cell.colspan + |RowCols(others, 0)|
  {
    hide Interval;
    var first := Interval(start, cell.colspan);
    assert RowCols(Block(start, cell) + others, 0) == first + RowCols(others, 0);
    assert first !! RowCols(others, 0);
  }

  // ----------------------------------------------------------- areas

  lemma {:induction false} FirstRowAside(f: Occupancy)
    ensures |f| == |RowCols(f, 0)| + |Shift(f, 1)|
  {
    if f == {} {
      assert RowCols(f, 0) == {} && Shift(f, 1) == {};
    } else {
      var s: Slot :| s in f;
      FirstRowAside(f - {s});
      if s.row == 0 {
        OneOnTop(f, s);
      } else {
        OneBelow(f, s);
      }
    }
  }

  lemma OneOnTop(f: Occupancy, s: Slot)
    requires s in f && s.row == 0
    ensures |RowCols(f, 0)| == |RowCols(f - {s}, 0)| + 1 && Shift(f, 1) == Shift(f - {s}, 1)
  {
    assert RowCols(f, 0) == RowCols(f - {s}, 0) + {s.col};
  }

  lemma OneBelow(f: Occupancy, s: Slot)
    requires s in f && s.row > 0
    ensures RowCols(f, 0) == RowCols(f - {s}, 0) && |Shift(f, 1)| == |Shift(f - {s}, 1)| + 1
  {
    assert Shift(f, 1) == Shift(f - {s}, 1) + {Slot(s.row - 1, s.col)};
  }

  function Lowered(cell: Cell): Cell
    requires cell.rowspan >= 1
  {
    cell.(rowspan := cell.rowspan - 1)
  }

  function CellArea(cell: Cell): nat
    decreases cell.rowspan
  {
    if cell.rowspan == 0 then 0 else cell.colspan + CellArea(Lowered(cell))
  }

  function Area(row: Row): nat {
    if row == [] then 0 else CellArea(row[0]) + Area(row[1..])
  }

  function TotalArea(p: seq<Move>): nat {
    if p == [] then 0 else CellArea(p[0].cell) + TotalArea(p[1..])
  }

  lemma {:induction false} BlockArea(c: nat, cell: Cell)
    ensures |Block(c, cell)| == CellArea(cell)
    decreases cell.rowspan
  {
    if cell.rowspan == 0 {
      assert Block(c, cell) == {};
    } else {
      BlockArea(c, Lowered(cell));
      FirstRowAside(Block(c, cell));
      BlockBelow(c, cell);
      assert RowCols(Block(c, cell), 0) == Interval(c, cell.colspan);
    }
  }

  lemma BlockBelow(c: nat, cell: Cell)
    requires cell.rowspan >= 1
    ensures Shift(Block(c, cell), 1) == Block(c, Lowered(cell))
  {
  }

  lemma {:induction false} PlacedArea(row: Row, inh: set<nat>, c: nat)
    ensures |PlaceRow(row, inh, c)| == Area(row)
  {
    hide NextFree, Block, CellArea;
    if row != [] {
      var start := NextFree(inh, c);
      var others := PlaceRow(row[1..], inh, start + row[0].colspan);
      assert PlaceRow(row, inh, c) == Block(start, row[0]) + others;
      assert Area(row) == CellArea(row[0]) + Area(row[1..]);
      PlacedApart(row, inh, start);
      hide PlaceRow, Area;
      PlacedArea(row[1..], inh, start + row[0].colspan);
      BlockArea(start, row[0]);
    } else {
      assert PlaceRow(row, inh, c) == {};
    }
  }

  lemma PlacedApart(row: Row, inh: set<nat>, start: nat)
    requires row != []
    ensures var first, others := Block(start, row[0]), PlaceRow(row[1..], inh, start + row[0].colspan);
      |first + others| == |first| + |others|
  {
    var first, others := Block(start, row[0]), PlaceRow(row[1..], inh, start + row[0].colspan);
    PlaceRowBelowEnd(row[1..], inh, start + row[0].colspan);
    hide PlaceRow;
    assert first !! others;
  }

  // A blank row leaves no more slots open below it than the cells it carries down fill.
  lemma {:induction false} BelowArea(row: Row, inh: set<nat>, c: nat, starts: seq<nat>, t: nat)
    requires |row| == |starts| && !RowHasSemanticContent(row)
    ensures |Shift(PlaceRow(row, inh, c), 1)| <= TotalArea(CarriedCells(row, starts, t))
  {
    hide NextFree, TotalArea, CarriedCells, Block, HasSemanticContent;
    if row != [] {
      var start := NextFree(inh, c);
      var others := PlaceRow(row[1..], inh, start + row[0].colspan);
      RestBlank(row);
      BelowArea(row[1..], inh, start + row[0].colspan, starts[1..], t);
      assert PlaceRow(row, inh, c) == Block(start, row[0]) + others;
      hide PlaceRow, RowHasSemanticContent;
      BelowUnion(Block(start, row[0]), others);
      FirstBelow(start, row[0]);
      HeadCarried(row, starts, t);
    } else {
      assert Shift(PlaceRow(row, inh, c), 1) == {};
    }
  }

  lemma RestBlank(row: Row)
    requires row != [] && !RowHasSemanticContent(row)
    ensures !HasSemanticContent(row[0]) && !RowHasSemanticContent(row[1..])
  {
    hide HasSemanticContent;
    assert forall k :: 0 <= k < |row| - 1 ==> row[1..][k] == row[k + 1];
  }

  lemma BelowUnion(a: Occupancy, b: Occupancy)
    ensures |Shift(a + b, 1)| <= |Shift(a, 1)| + |Shift(b, 1)|
  {
    assert Shift(a + b, 1) == Shift(a, 1) + Shift(b, 1);
    UnionSize(Shift(a, 1), Shift(b, 1));
  }

  lemma UnionSize(a: Occupancy, b: Occupancy)
    ensures |a + b| <= |a| + |b|
    ensures |a + b| == |a| + |b| ==> a !! b
  {
    assert |a + b| == |a| + |b| - |a * b|;
    if |a + b| == |a| + |b| {
      assert a * b == {};
      assert forall s: Slot {:trigger s in a} {:trigger s in b} :: s in a && s in b ==> s in a * b;
    }
  }

  lemma FirstBelow(c: nat, cell: Cell)
    ensures |Shift(Block(c, cell), 1)| == if cell.rowspan > 1 then CellArea(Lowered(cell)) else 0
  {
    if cell.rowspan > 1 {
      BlockBelow(c, cell);
      BlockArea(c, Lowered(cell));
    } else {
      assert Shift(Block(c, cell), 1) == {};
    }
  }

  lemma HeadCarried(row: Row, starts: seq<nat>, t: nat)
    requires |row| == |starts| && row != [] && !HasSemanticContent(row[0])
    ensures TotalArea(CarriedCells(row, starts, t)) ==
      (if row[0].rowspan > 1 then CellArea(Lowered(row[0])) else 0) + TotalArea(CarriedCells(row[1..], starts[1..], t))
  {
    hide HasSemanticContent, CellArea;
    var rest := CarriedCells(row[1..], starts[1..], t);
    if row[0].rowspan > 1 {
      assert CarriedCells(row, starts, t)[1..] == rest;
    } else {
      assert [] + rest == rest;
    }
  }

  // ------------------------------------------------ inserting adds area

  lemma {:induction false} AreaOfSum(a: Row, b: Row)
    ensures Area(a + b) == Area(a) + Area(b)
  {
    hide CellArea;
    if a == [] {
      assert a + b == b;
    } else {
      assert (a + b)[0] == a[0] && (a + b)[1..] == a[1..] + b;
      AreaOfSum(a[1..], b);
    }
  }

  lemma InsertArea(row: Row, i: nat, cell: Cell)
    requires i <= |row|
    ensures Area(InsertAt(row, i, cell)) == Area(row) + CellArea(cell)
  {
    var a, b := row[..i], row[i..];
    assert row == a + b && InsertAt(row, i, cell) == (a + [cell]) + b;
    assert Area([cell]) == CellArea(cell);
    hide Area, CellArea;
    AreaOfSum(a, b);
    AreaOfSum(a, [cell]);
    AreaOfSum(a + [cell], b);
  }

  lemma {:induction false} InsertAllArea(rows: seq<Row>, t: nat, moves: seq<Move>)
    requires t < |rows| && forall m :: m in moves ==> m.row == t
    ensures Area(InsertAll(rows, moves)[t]) == Area(rows[t]) + TotalArea(moves)
    decreases |moves|
  {
    hide Area, CellArea;
    if moves != [] {
      var m := moves[0];
      InsertArea(rows[t], InsertIndex(RowStarts(rows, t, {}), m.start), m.cell);
      InsertAllArea(InsertBefore(rows, t, m.start, m.cell), t, moves[1..]);
    }
  }

  lemma {:induction false} AreaOfInsert(x: Move, s: seq<Move>)
    ensures TotalArea(InsertMove(x, s)) == CellArea(x.cell) + TotalArea(s)
  {
    hide CellArea;
    if !(s == [] || Before(x, s[0])) {
      AreaOfInsert(x, s[1..]);
      assert InsertMove(x, s)[1..] == InsertMove(x, s[1..]);
    } else {
      assert ([x] + s)[1..] == s;
    }
  }

  lemma {:induction false} AreaOfSort(s: seq<Move>)
    ensures TotalArea(SortMoves(s)) == TotalArea(s)
  {
    hide CellArea;
    if s != [] {
      AreaOfSort(s[1..]);
      AreaOfInsert(s[0], SortMoves(s[1..]));
    }
  }

  // The blank row's cells go down whole.
  lemma SunkArea(rows: seq<Row>, h: nat)
    requires h + 1 < |rows|
    ensures Area(CarryDown(rows, h)[h + 1]) ==
      Area(rows[h + 1]) + TotalArea(CarriedCells(rows[h], RowStarts(rows, h, {}), h + 1))
  {
    hide Area, TotalArea, SortMoves, InsertAll, CarriedCells, RowStarts;
    var k := CarriedCells(rows[h], RowStarts(rows, h, {}), h + 1);
    SortKeepsRow(k, h + 1);
    InsertAllArea(rows, h + 1, SortMoves(k));
    AreaOfSort(k);
  }
}
