/**
 Sinking the blank rowspan placeholders of a row that is about to be deleted
 into the row below it, so that later rows keep their visual columns.
 */
module TableCarry {
  import opened TableGrid
  import opened TableLayout

  // A cell waiting to be inserted in row `row` before visual column `start`.
  datatype Move = Move(row: nat, start: nat, cell: Cell)

  predicate HasSemanticContent(cell: Cell) {
    exists i :: 0 <= i < |cell.content| && cell.content[i].semantic
  }

  predicate RowHasSemanticContent(row: Row) {
    exists k :: 0 <= k < |row| && HasSemanticContent(row[k])
  }

  // ----------------------------------------------------------- insertion

  function InsertIndex(starts: seq<nat>, v: nat): (i: nat)
    ensures i <= |starts|
    ensures forall j :: 0 <= j < i ==> starts[j] < v
    ensures i < |starts| ==> starts[i] >= v
  {
    if starts == [] || starts[0] >= v then 0 else InsertIndex(starts[1..], v) + 1
  }

  lemma {:induction false} InsertIndexUnique(starts: seq<nat>, v: nat, i: nat)
    requires i <= |starts|
    requires forall j :: 0 <= j < i ==> starts[j] < v
    requires i < |starts| ==> starts[i] >= v
    ensures InsertIndex(starts, v) == i
  {
    if i > 0 {
      InsertIndexUnique(starts[1..], v, i - 1);
    }
  }

  function InsertAt<T>(s: seq<T>, i: nat, x: T): (r: seq<T>)
    requires i <= |s|
    ensures |r| == |s| + 1 && r[i] == x
    ensures forall j :: 0 <= j < |r| ==> r[j] == (if j < i then s[j] else if j == i then x else s[j - 1])
  {
    s[..i] + [x] + s[i..]
  }

  ghost function InsertBefore(rows: seq<Row>, t: nat, v: nat, cell: Cell): (r: seq<Row>)
    requires t < |rows|
    ensures |r| == |rows|
  {
    rows[t := InsertAt(rows[t], InsertIndex(RowStarts(rows, t, {}), v), cell)]
  }

  method InsertCellBeforeVisualColumn(rows: seq<Row>, t: nat, startVcol: nat, cell: Cell) returns (result: seq<Row>)
    requires t < |rows|
    ensures result == InsertBefore(rows, t, startVcol, cell)
  {
    hide RowStarts;
    var map1 := BuildVisualColMapping(rows, t, {});
    for i := 0 to |map1|
      invariant forall j :: 0 <= j < i ==> map1[j] < startVcol
    {
      if map1[i] >= startVcol {
        InsertIndexUnique(map1, startVcol, i);
        return rows[t := InsertAt(rows[t], i, cell)];
      }
    }
    InsertIndexUnique(map1, startVcol, |map1|);
    result := rows[t := InsertAt(rows[t], |map1|, cell)];
  }

  // ------------------------------------------- sorted(..., reverse=True)

  predicate Before(a: Move, b: Move) {
    a.row > b.row || (a.row == b.row && a.start >= b.start)
  }

  function InsertMove(x: Move, s: seq<Move>): (r: seq<Move>)
    ensures multiset(r) == multiset([x] + s)
  {
    if s == [] || Before(x, s[0]) then [x] + s else
      assert s == [s[0]] + s[1..];
      [s[0]] + InsertMove(x, s[1..])
  }

  // A stable sort with the largest (row, start) first.
  function SortMoves(s: seq<Move>): (r: seq<Move>)
    ensures multiset(r) == multiset(s)
  {
    if s == [] then [] else
      assert s == [s[0]] + s[1..];
      InsertMove(s[0], SortMoves(s[1..]))
  }

  ghost function InsertAll(rows: seq<Row>, moves: seq<Move>): (r: seq<Row>)
    requires forall m :: m in moves ==> m.row < |rows|
    ensures |r| == |rows|
    decreases |moves|
  {
    if moves == [] then rows else
      InsertAll(InsertBefore(rows, moves[0].row, moves[0].start, moves[0].cell), moves[1..])
  }

  method InsertMoves(rows: seq<Row>, moves: seq<Move>) returns (result: seq<Row>)
    requires forall m :: m in moves ==> m.row < |rows|
    ensures result == InsertAll(rows, moves)
  {
    hide InsertBefore;
    result := rows;
    assert moves[0..] == moves;
    for i := 0 to |moves|
      invariant |result| == |rows|
      invariant InsertAll(result, moves[i..]) == InsertAll(rows, moves)
    {
      var m := moves[i];
      assert moves[i..][0] == m && moves[i..][1..] == moves[i + 1..];
      result := InsertCellBeforeVisualColumn(result, m.row, m.start, m.cell);
    }
    assert moves[|moves|..] == [];
  }

  // -------------------------------------------------------- carrying down

  // Blank cells that span further down, with the rowspan they have left.
  function CarriedCells(row: Row, starts: seq<nat>, target: nat): (moves: seq<Move>)
    requires |row| == |starts|
    ensures forall m :: m in moves ==> m.row == target
  {
    if row == [] then [] else
      (if row[0].rowspan > 1 && !HasSemanticContent(row[0])
       then [Move(target, starts[0], row[0].(rowspan := row[0].rowspan - 1))] else [])
      + CarriedCells(row[1..], starts[1..], target)
  }

  lemma SortKeepsRow(s: seq<Move>, target: nat)
    requires forall m :: m in s ==> m.row == target
    ensures forall m :: m in SortMoves(s) ==> m.row == target
  {
    forall m | m in SortMoves(s) ensures m.row == target {
      assert m in multiset(SortMoves(s));
    }
  }

  ghost function CarryDown(rows: seq<Row>, i: nat): (r: seq<Row>)
    requires i < |rows|
    ensures |r| == |rows|
  {
    if i + 1 >= |rows| then rows else
      var carried := CarriedCells(rows[i], RowStarts(rows, i, {}), i + 1);
      SortKeepsRow(carried, i + 1);
      InsertAll(rows, SortMoves(carried))
  }

  method CollectCarriedCells(row: Row, vcolMap: seq<nat>, target: nat) returns (carried: seq<Move>)
    requires |row| == |vcolMap|
    ensures carried == CarriedCells(row, vcolMap, target)
  {
    hide HasSemanticContent;
    carried := [];
    assert row[0..] == row && vcolMap[0..] == vcolMap;
    for k := 0 to |row|
      invariant carried + CarriedCells(row[k..], vcolMap[k..], target) == CarriedCells(row, vcolMap, target)
    {
      var cell := row[k];
      assert row[k..][0] == cell && row[k..][1..] == row[k + 1..];
      assert vcolMap[k..][0] == vcolMap[k] && vcolMap[k..][1..] == vcolMap[k + 1..];
      if cell.rowspan > 1 && !HasSemanticContent(cell) {
        carried := carried + [Move(target, vcolMap[k], cell.(rowspan := cell.rowspan - 1))];
      }
    }
    assert row[|row|..] == [];
  }

  method CarryRowspanStructureToNextRow(rows: seq<Row>, rowIdx: nat) returns (result: seq<Row>)
    requires rowIdx < |rows|
    ensures result == CarryDown(rows, rowIdx)
  {
    hide RowStarts, SortMoves, InsertAll, CarriedCells;
    var next := rowIdx + 1;
    if next >= |rows| {
      return rows;
    }
    var vcolMap := BuildVisualColMapping(rows, rowIdx, {});
    var carried := CollectCarriedCells(rows[rowIdx], vcolMap, next);
    SortKeepsRow(carried, next);
    result := InsertMoves(rows, SortMoves(carried));
  }
}
