/**
 The column grid of an HTML table with colspan and rowspan.

 Occupancy is a set of slots. Rows of an occupancy are counted from the row
 that is scanned next, so that `Carry(rows, f)` is at once the occupancy after
 `rows` and the `initial_occupied` of whatever is scanned after them.
 */
module TableGrid {
  import opened Wrappers

  // A child node of a cell. `semantic` says whether the node holds visible
  // text or one of the media elements the merge code looks for.
  datatype Node = Node(id: nat, semantic: bool)
  datatype Cell = Cell(colspan: nat, rowspan: nat, content: seq<Node>)
  type Row = seq<Cell>

  datatype Slot = Slot(row: nat, col: nat)
  type Occupancy = set<Slot>

  datatype RowMetrics = RowMetrics(rowIdx: nat, effectiveCols: nat, actualCols: nat, visualCols: nat)
  datatype RowScanResult = RowScanResult(
    rowEffectiveCols: seq<nat>,
    rowMetrics: seq<RowMetrics>,
    totalCols: nat,
    lastNonemptyRowMetrics: Option<RowMetrics>,
    tailOccupied: Occupancy)

  // ---------------------------------------------------------------- columns

  ghost predicate IsShift(r: Occupancy, occ: Occupancy, n: nat)
  {
    forall x: Slot {:trigger x in r} :: x in r <==> Slot(x.row + n, x.col) in occ
  }

  lemma ShiftExists(occ: Occupancy, n: nat)
    ensures exists r :: IsShift(r, occ, n)
  {
    var r := set s | s in occ && s.row >= n :: Slot(s.row - n, s.col);
    forall x: Slot ensures x in r <==> Slot(x.row + n, x.col) in occ {
      var s := Slot(x.row + n, x.col);
      assert Slot(s.row - n, s.col) == x;
    }
    assert IsShift(r, occ, n);
  }

  // The part of `occ` from row n on, with rows counted from row n.
  ghost function Shift(occ: Occupancy, n: nat): (r: Occupancy)
    ensures forall x: Slot {:trigger x in r} :: x in r <==> Slot(x.row + n, x.col) in occ
  {
    ShiftExists(occ, n);
    var r :| IsShift(r, occ, n);
    r
  }

  lemma ShiftShift(occ: Occupancy, m: nat, n: nat)
    ensures Shift(Shift(occ, m), n) == Shift(occ, m + n)
  {
  }

  function RowCols(occ: Occupancy, r: nat): (cols: set<nat>)
    ensures forall c :: c in cols <==> Slot(r, c) in occ
  {
    var cols := set s | s in occ && s.row == r :: s.col;
    assert forall c | Slot(r, c) in occ :: c in cols by {
      forall c | Slot(r, c) in occ ensures c in cols {
        assert Slot(r, c).col == c;
      }
    }
    cols
  }

  predicate IsMax(s: set<nat>, m: nat) {
    m in s && forall c {:trigger c in s} :: c in s ==> c <= m
  }

  lemma {:induction false} MaxExists(s: set<nat>)
    requires s != {}
    ensures exists m :: IsMax(s, m)
  {
    var x: nat :| x in s;
    var rest := s - {x};
    if rest == {} {
      assert forall c {:trigger c in s} :: c in s ==> c in rest || c == x;
      assert IsMax(s, x);
    } else {
      MaxExists(rest);
      var m: nat :| IsMax(rest, m);
      assert forall c {:trigger c in s} :: c in s ==> c in rest || c == x;
      assert IsMax(s, if m >= x then m else x);
    }
  }

  // max(cols) + 1, and 0 for no columns
  function WidthOf(cols: set<nat>): (w: nat)
    ensures forall c :: c in cols ==> c < w
    ensures w > 0 ==> w - 1 in cols
  {
    if cols == {} then 0 else
      MaxExists(cols);
      var m: nat :| IsMax(cols, m);
      m + 1
  }

  function AllCols(occ: Occupancy): (cols: set<nat>)
    ensures forall s {:trigger s in occ} :: s in occ ==> s.col in cols
    ensures forall c :: c in cols ==> exists s :: s in occ && s.col == c
  {
    set s | s in occ :: s.col
  }

  function Interval(a: nat, n: nat): (s: set<nat>)
    ensures forall j {:trigger j in s} :: j in s <==> a <= j < a + n
    ensures |s| == n
  {
    if n == 0 then {} else Interval(a, n - 1) + {a + n - 1}
  }

  function NextFree(inh: set<nat>, c: nat): (f: nat)
    ensures f >= c && f !in inh
    ensures forall k: nat :: c <= k < f ==> k in inh
    decreases inh
  {
    if c in inh then NextFree(inh - {c}, c + 1) else c
  }

  // -------------------------------------------------------------- one row

  // The slots a cell takes when it starts at column `c` of the row being scanned.
  function Block(c: nat, cell: Cell): (b: Occupancy)
    ensures forall s {:trigger s in b} :: s in b <==> s.row < cell.rowspan && c <= s.col < c + cell.colspan
  {
    set i: nat, j: nat | 0 <= i < cell.rowspan && c <= j < c + cell.colspan :: Slot(i, j)
  }

  // Start column of every explicit cell, given the columns inherited from above.
  function Starts(row: Row, inh: set<nat>, c: nat): (s: seq<nat>)
    ensures |s| == |row|
  {
    if row == [] then [] else
      var f := NextFree(inh, c);
      [f] + Starts(row[1..], inh, f + row[0].colspan)
  }

  // The column cursor after the last cell.
  function End(row: Row, inh: set<nat>, c: nat): (e: nat)
    ensures e >= c
  {
    if row == [] then c else End(row[1..], inh, NextFree(inh, c) + row[0].colspan)
  }

  function PlaceRow(row: Row, inh: set<nat>, c: nat): Occupancy
  {
    if row == [] then {} else
      var f := NextFree(inh, c);
      Block(f, row[0]) + PlaceRow(row[1..], inh, f + row[0].colspan)
  }

  function ActualCols(row: Row): nat
  {
    if row == [] then 0 else row[0].colspan + ActualCols(row[1..])
  }

  // Occupancy once the cells of `row` are placed at row 0 of `f`.
  function Land(f: Occupancy, row: Row): Occupancy
  {
    f + PlaceRow(row, RowCols(f, 0), 0)
  }

  ghost function Advance(f: Occupancy, row: Row): Occupancy
  {
    Shift(Land(f, row), 1)
  }

  function Metric(row: Row, f: Occupancy, idx: nat): RowMetrics
  {
    RowMetrics(idx, WidthOf(RowCols(Land(f, row), 0)), ActualCols(row), |row|)
  }

  // ------------------------------------------------------------ many rows

  ghost function Carry(rows: seq<Row>, f: Occupancy): Occupancy
  {
    if rows == [] then f else Carry(rows[1..], Advance(f, rows[0]))
  }

  ghost function Metrics(rows: seq<Row>, f: Occupancy, idx: nat): (m: seq<RowMetrics>)
    ensures |m| == |rows|
  {
    if rows == [] then [] else
      [Metric(rows[0], f, idx)] + Metrics(rows[1..], Advance(f, rows[0]), idx + 1)
  }

  ghost function EffectiveCols(rows: seq<Row>, f: Occupancy): (e: seq<nat>)
    ensures |e| == |rows|
  {
    if rows == [] then [] else
      [Metric(rows[0], f, 0).effectiveCols] + EffectiveCols(rows[1..], Advance(f, rows[0]))
  }

  ghost function RowsWidth(rows: seq<Row>, f: Occupancy): nat
  {
    if rows == [] then 0 else
      Max(Max(End(rows[0], RowCols(f, 0), 0), Metric(rows[0], f, 0).effectiveCols),
          RowsWidth(rows[1..], Advance(f, rows[0])))
  }

  ghost function TotalCols(rows: seq<Row>, f: Occupancy): nat
  {
    Max(WidthOf(AllCols(f)), RowsWidth(rows, f))
  }

  ghost function LastNonempty(rows: seq<Row>, f: Occupancy, idx: nat): Option<RowMetrics>
  {
    if rows == [] then None else
      match LastNonempty(rows[1..], Advance(f, rows[0]), idx + 1)
      case Some(m) => Some(m)
      case None => if rows[0] == [] then None else Some(Metric(rows[0], f, idx))
  }

  // The result of a scan from scratch, as a function of the rows.
  ghost function Scan(rows: seq<Row>, f: Occupancy, idx: nat): RowScanResult
  {
    RowScanResult(EffectiveCols(rows, f), Metrics(rows, f, idx), TotalCols(rows, f),
                  LastNonempty(rows, f, idx), Carry(rows, f))
  }

  // ------------------------------------------------------- the scan itself

  method StampCell(occupied: Occupancy, r: nat, c: nat, cell: Cell) returns (result: Occupancy)
    ensures forall s {:trigger s in result} :: s in result <==>
      s in occupied || (r <= s.row < r + cell.rowspan && c <= s.col < c + cell.colspan)
  {
    result := occupied;
    for i := 0 to cell.rowspan
      invariant forall s {:trigger s in result} :: s in result <==>
        s in occupied || (r <= s.row < r + i && c <= s.col < c + cell.colspan)
    {
      for j := c to c + cell.colspan
        invariant forall s {:trigger s in result} :: s in result <==>
          s in occupied || (r <= s.row < r + i && c <= s.col < c + cell.colspan) || (s.row == r + i && c <= s.col < j)
      {
        result := result + {Slot(r + i, j)};
      }
    }
  }

  lemma NextFreeUnique(inh: set<nat>, c: nat, f: nat)
    requires f >= c && f !in inh && forall k: nat :: c <= k < f ==> k in inh
    ensures NextFree(inh, c) == f
  {
    var g := NextFree(inh, c);
    assert !(f < g);
  }

  // The inner `while col_idx in occupied_row` loop.
  method FirstFreeColumn(occupied: Occupancy, r: nat, c: nat) returns (f: nat)
    ensures f == NextFree(RowCols(occupied, r), c)
  {
    ghost var cols := RowCols(occupied, r);
    f := c;
    while Slot(r, f) in occupied
      invariant c <= f <= NextFree(cols, c)
      decreases NextFree(cols, c) - f
    {
      assert f in cols && NextFree(cols, c) !in cols;
      f := f + 1;
    }
    NextFreeUnique(cols, c, f);
  }

  ghost predicate AgreeFrom(a: set<nat>, b: set<nat>, c: nat)
  {
    forall k: nat {:trigger k in a} {:trigger k in b} :: k >= c ==> (k in a <==> k in b)
  }

  lemma NextFreeAgree(a: set<nat>, b: set<nat>, c: nat)
    requires AgreeFrom(a, b, c)
    ensures NextFree(a, c) == NextFree(b, c)
  {
    NextFreeUnique(b, c, NextFree(a, c));
  }

  // One step of `Land`: placing the first cell of `row` at its start column.
  lemma PlaceStep(row: Row, inh: set<nat>, c: nat, before: Occupancy, after: Occupancy)
    requires row != []
    requires after == before + Block(NextFree(inh, c), row[0])
    ensures var c' := NextFree(inh, c) + row[0].colspan;
      && before + PlaceRow(row, inh, c) == after + PlaceRow(row[1..], inh, c')
      && End(row, inh, c) == End(row[1..], inh, c')
  {
  }

  lemma InitialCols(occupied: Occupancy, r: nat)
    ensures RowCols(Shift(occupied, r), 0) == RowCols(occupied, r)
    ensures AgreeFrom(RowCols(occupied, r), RowCols(occupied, r), 0)
  {
  }

  lemma AgreeLater(a: set<nat>, b: set<nat>, c: nat, d: nat)
    requires AgreeFrom(a, b, c) && c <= d
    ensures AgreeFrom(a, b, d)
  {
  }

  lemma StampIsBlock(occupied: Occupancy, next: Occupancy, r: nat, c: nat, cell: Cell, inh: set<nat>)
    requires forall s {:trigger s in next} :: s in next <==>
      s in occupied || (r <= s.row < r + cell.rowspan && c <= s.col < c + cell.colspan)
    requires AgreeFrom(RowCols(occupied, r), inh, c)
    ensures Shift(next, r) == Shift(occupied, r) + Block(c, cell)
    ensures AgreeFrom(RowCols(next, r), inh, c + cell.colspan)
  {
  }

  // Places the cells of one row, whose index is `r`, in the shared occupancy.
  method PlaceCells(row: Row, occupied0: Occupancy, r: nat, maxCols0: nat)
    returns (occupied: Occupancy, maxCols: nat, actualCols: nat)
    ensures Shift(occupied, r) == Land(Shift(occupied0, r), row)
    ensures maxCols == Max(maxCols0, End(row, RowCols(occupied0, r), 0))
    ensures actualCols == ActualCols(row)
  {
    hide NextFree, Block, Shift, AgreeFrom, RowCols, PlaceRow, End;
    ghost var inh := RowCols(occupied0, r);
    ghost var whole := Shift(occupied0, r) + PlaceRow(row, inh, 0);
    InitialCols(occupied0, r);
    var colIdx: nat := 0;
    occupied, maxCols, actualCols := occupied0, maxCols0, 0;
    assert row[0..] == row;
    for k := 0 to |row|
      invariant AgreeFrom(RowCols(occupied, r), inh, colIdx)
      invariant Shift(occupied, r) + PlaceRow(row[k..], inh, colIdx) == whole
      invariant End(row[k..], inh, colIdx) == End(row, inh, 0)
      invariant maxCols == Max(maxCols0, colIdx)
      invariant actualCols + ActualCols(row[k..]) == ActualCols(row)
    {
      var cell := row[k];
      assert row[k..][0] == cell && row[k..][1..] == row[k + 1..];
      var start := FirstFreeColumn(occupied, r, colIdx);
      NextFreeAgree(RowCols(occupied, r), inh, colIdx);
      actualCols := actualCols + cell.colspan;
      var next := StampCell(occupied, r, start, cell);
      AgreeLater(RowCols(occupied, r), inh, colIdx, start);
      StampIsBlock(occupied, next, r, start, cell, inh);
      PlaceStep(row[k..], inh, colIdx, Shift(occupied, r), Shift(next, r));
      occupied := next;
      colIdx := start + cell.colspan;
      maxCols := Max(maxCols, colIdx);
    }
    assert row[|row|..] == [];
    NothingLeft(inh, colIdx);
  }

  lemma NothingLeft(inh: set<nat>, c: nat)
    ensures PlaceRow([], inh, c) == {} && End([], inh, c) == c
  {
  }

  // What one iteration of the row loop adds to the result.
  lemma ScanStep(row: Row, occupied: Occupancy, next: Occupancy, i: nat, idx: nat)
    requires Shift(next, i) == Land(Shift(occupied, i), row)
    ensures Shift(next, i + 1) == Advance(Shift(occupied, i), row)
    ensures RowCols(occupied, i) == RowCols(Shift(occupied, i), 0)
    ensures RowMetrics(idx, WidthOf(RowCols(next, i)), ActualCols(row), |row|) == Metric(row, Shift(occupied, i), idx)
  {
    ShiftShift(next, i, 1);
    assert RowCols(next, i) == RowCols(Shift(next, i), 0);
    assert RowCols(occupied, i) == RowCols(Shift(occupied, i), 0);
  }

  lemma ShiftAsComprehension(occ: Occupancy, n: nat)
    ensures Shift(occ, n) == set s | s in occ && s.row >= n :: Slot(s.row - n, s.col)
  {
    var tail := set s | s in occ && s.row >= n :: Slot(s.row - n, s.col);
    forall x: Slot ensures x in tail <==> x in Shift(occ, n) {
      var s := Slot(x.row + n, x.col);
      assert Slot(s.row - n, s.col) == x;
    }
  }

  method ScanRows(rows: seq<Row>, initialOccupied: Occupancy, startRowIdx: nat)
    returns (result: RowScanResult)
    ensures result == Scan(rows, initialOccupied, startRowIdx)
  {
    hide Metric, Advance, Land, End, WidthOf, RowCols, AllCols, Shift;
    var occupied := initialOccupied;
    var maxCols: nat := WidthOf(AllCols(initialOccupied));
    var rowEffectiveCols, rowMetrics := [], [];
    var last := None;
    assert Shift(occupied, 0) == occupied && rows[0..] == rows;
    for i := 0 to |rows|
      invariant rowEffectiveCols + EffectiveCols(rows[i..], Shift(occupied, i)) == EffectiveCols(rows, initialOccupied)
      invariant rowMetrics + Metrics(rows[i..], Shift(occupied, i), startRowIdx + i) ==
        Metrics(rows, initialOccupied, startRowIdx)
      invariant Max(maxCols, RowsWidth(rows[i..], Shift(occupied, i))) == TotalCols(rows, initialOccupied)
      invariant LastNonempty(rows, initialOccupied, startRowIdx) ==
                (match LastNonempty(rows[i..], Shift(occupied, i), startRowIdx + i)
                 case Some(m) => Some(m)
                 case None => last)
      invariant Carry(rows[i..], Shift(occupied, i)) == Carry(rows, initialOccupied)
    {
      var row := rows[i];
      assert rows[i..][0] == row && rows[i..][1..] == rows[i + 1..];
      var next, widest, actualCols := PlaceCells(row, occupied, i, maxCols);
      ScanStep(row, occupied, next, i, startRowIdx + i);
      ScanStep(row, occupied, next, i, 0);
      var effectiveCols := WidthOf(RowCols(next, i));
      maxCols := Max(widest, effectiveCols);
      rowEffectiveCols := rowEffectiveCols + [effectiveCols];
      var metrics := RowMetrics(startRowIdx + i, effectiveCols, actualCols, |row|);
      rowMetrics := rowMetrics + [metrics];
      if row != [] {
        last := Some(metrics);
      }
      occupied := next;
    }
    assert rows[|rows|..] == [];
    var tail := set s | s in occupied && s.row >= |rows| :: Slot(s.row - |rows|, s.col);
    ShiftAsComprehension(occupied, |rows|);
    result := RowScanResult(rowEffectiveCols, rowMetrics, maxCols, last, tail);
  }

  // ---------------------------------------------------- scanning composes

  lemma PlaceRowBelowEnd(row: Row, inh: set<nat>, c: nat)
    ensures forall s {:trigger s in PlaceRow(row, inh, c)} ::
      s in PlaceRow(row, inh, c) ==> c <= s.col < End(row, inh, c)
  {
    if row != [] {
      PlaceRowBelowEnd(row[1..], inh, NextFree(inh, c) + row[0].colspan);
    }
  }

  lemma WidthMonotone(a: set<nat>, w: nat)
    requires forall c :: c in a ==> c < w
    ensures WidthOf(a) <= w
  {
  }

  // What is carried out of the scanned rows never reaches past their total width.
  lemma {:induction false} CarryWidth(rows: seq<Row>, f: Occupancy)
    ensures WidthOf(AllCols(Carry(rows, f))) <= TotalCols(rows, f)
  {
    if rows != [] {
      var g := Advance(f, rows[0]);
      CarryWidth(rows[1..], g);
      PlaceRowBelowEnd(rows[0], RowCols(f, 0), 0);
      WidthMonotone(AllCols(g), Max(WidthOf(AllCols(f)), End(rows[0], RowCols(f, 0), 0)));
    }
  }

  lemma {:induction false} CarryComposes(a: seq<Row>, b: seq<Row>, f: Occupancy)
    ensures Carry(a + b, f) == Carry(b, Carry(a, f))
  {
    if a == [] {
      assert a + b == b;
    } else {
      assert (a + b)[0] == a[0] && (a + b)[1..] == a[1..] + b;
      CarryComposes(a[1..], b, Advance(f, a[0]));
    }
  }

  lemma {:induction false} MetricsCompose(a: seq<Row>, b: seq<Row>, f: Occupancy, idx: nat)
    ensures EffectiveCols(a + b, f) == EffectiveCols(a, f) + EffectiveCols(b, Carry(a, f))
    ensures Metrics(a + b, f, idx) == Metrics(a, f, idx) + Metrics(b, Carry(a, f), idx + |a|)
  {
    hide Metric, Advance;
    if a == [] {
      assert a + b == b;
    } else {
      assert (a + b)[0] == a[0] && (a + b)[1..] == a[1..] + b;
      MetricsCompose(a[1..], b, Advance(f, a[0]), idx + 1);
    }
  }

  lemma {:induction false} WidthComposes(a: seq<Row>, b: seq<Row>, f: Occupancy)
    ensures RowsWidth(a + b, f) == Max(RowsWidth(a, f), RowsWidth(b, Carry(a, f)))
  {
    if a == [] {
      assert a + b == b;
    } else {
      assert (a + b)[0] == a[0] && (a + b)[1..] == a[1..] + b;
      WidthComposes(a[1..], b, Advance(f, a[0]));
    }
  }

  lemma {:induction false} LastComposes(a: seq<Row>, b: seq<Row>, f: Occupancy, idx: nat)
    ensures LastNonempty(a + b, f, idx) ==
            (match LastNonempty(b, Carry(a, f), idx + |a|)
             case Some(m) => Some(m)
             case None => LastNonempty(a, f, idx))
  {
    hide Metric, Advance;
    if a == [] {
      assert a + b == b;
    } else {
      assert (a + b)[0] == a[0] && (a + b)[1..] == a[1..] + b;
      LastComposes(a[1..], b, Advance(f, a[0]), idx + 1);
    }
  }

  lemma ScanComposes(a: seq<Row>, b: seq<Row>, f: Occupancy, idx: nat)
    ensures Carry(a + b, f) == Carry(b, Carry(a, f))
    ensures EffectiveCols(a + b, f) == EffectiveCols(a, f) + EffectiveCols(b, Carry(a, f))
    ensures Metrics(a + b, f, idx) == Metrics(a, f, idx) + Metrics(b, Carry(a, f), idx + |a|)
    ensures TotalCols(a + b, f) == Max(TotalCols(a, f), TotalCols(b, Carry(a, f)))
    ensures LastNonempty(a + b, f, idx) ==
            (match LastNonempty(b, Carry(a, f), idx + |a|)
             case Some(m) => Some(m)
             case None => LastNonempty(a, f, idx))
  {
    CarryWidth(a, f);
    CarryComposes(a, b, f);
    MetricsCompose(a, b, f, idx);
    WidthComposes(a, b, f);
    LastComposes(a, b, f, idx);
  }
}
