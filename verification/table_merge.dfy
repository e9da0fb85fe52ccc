/**
 Merging the table at the top of one page into the table at the bottom of the
 page before it, with the metrics cached per table updated as rows arrive.
 */
module TableMerge {
  import opened Wrappers
  import opened TableGrid
  import opened TableLayout
  import opened TableHeader
  import opened TableCarry
  import opened TableCarryLayout
  import opened TableArea
  import opened TableCarryExact
  import opened TableCellMerge
  import opened TableAligned
  import opened TableAdjust

  // `cell_merge` is empty when the block carries none; `hasBody` says whether a
  // tbody or table element was found to append rows to.
  class TableMergeState {
    var rows: seq<Row>
    var totalCols: nat
    var lastDataRowMetrics: Option<RowMetrics>
    var rowEffectiveCols: seq<nat>
    var tailOccupied: Occupancy
    var dirty: bool
    const cellMerge: seq<int>
    const hasBody: bool

    // Every cached metric is what a fresh scan of the whole row list would give.
    ghost predicate Valid()
      reads this
    {
      && rowEffectiveCols == EffectiveCols(rows, {})
      && totalCols == TotalCols(rows, {})
      && lastDataRowMetrics == LastNonempty(rows, {}, 0)
      && tailOccupied == Carry(rows, {})
    }

    constructor (rows: seq<Row>, cellMerge: seq<int>, hasBody: bool)
      ensures Valid() && this.rows == rows && this.cellMerge == cellMerge && this.hasBody == hasBody && !dirty
    {
      this.cellMerge, this.hasBody, this.rows := cellMerge, hasBody, rows;
      this.dirty := false;
      var scan := ScanRows(rows, {}, 0);
      this.rowEffectiveCols, this.totalCols := scan.rowEffectiveCols, scan.totalCols;
      this.lastDataRowMetrics, this.tailOccupied := scan.lastNonemptyRowMetrics, scan.tailOccupied;
    }

    method Refresh()
      modifies this
      ensures Valid() && rows == old(rows) && dirty == old(dirty)
    {
      var scan := ScanRows(rows, {}, 0);
      rowEffectiveCols, totalCols := scan.rowEffectiveCols, scan.totalCols;
      lastDataRowMetrics, tailOccupied := scan.lastNonemptyRowMetrics, scan.tailOccupied;
    }

    // Appends rows and scans only those, seeded with the rowspans still open.
    method Append(merged: seq<Row>)
      requires Valid()
      modifies this
      ensures Valid() && rows == old(rows) + merged && dirty == old(dirty)
    {
      hide EffectiveCols, TotalCols, LastNonempty, Carry, Metrics;
      var appendStartIdx := |rows|;
      ghost var before := rows;
      rows := rows + merged;
      if merged != [] {
        var scan := ScanRows(merged, tailOccupied, appendStartIdx);
        AppendedMetrics(before, merged, scan);
        rowEffectiveCols := rowEffectiveCols + scan.rowEffectiveCols;
        totalCols := Max(totalCols, scan.totalCols);
        if scan.lastNonemptyRowMetrics.Some? {
          lastDataRowMetrics := scan.lastNonemptyRowMetrics;
        }
        tailOccupied := scan.tailOccupied;
      } else {
        assert before + [] == before;
      }
    }
  }

  lemma AppendedMetrics(before: seq<Row>, merged: seq<Row>, scan: RowScanResult)
    requires scan == Scan(merged, Carry(before, {}), |before|)
    ensures EffectiveCols(before + merged, {}) == EffectiveCols(before, {}) + scan.rowEffectiveCols
    ensures TotalCols(before + merged, {}) == Max(TotalCols(before, {}), scan.totalCols)
    ensures LastNonempty(before + merged, {}, 0) ==
      if scan.lastNonemptyRowMetrics.Some? then scan.lastNonemptyRowMetrics else LastNonempty(before, {}, 0)
    ensures Carry(before + merged, {}) == scan.tailOccupied
  {
    hide EffectiveCols, TotalCols, LastNonempty, Carry, Metrics;
    ScanComposes(before, merged, {}, 0);
  }

  // ------------------------------------------------------- the cell merge

  // `rows2.remove(first_data_row)`: list removal compares rows by structure, so any
  // row equal to the one at h may go, not later than h itself.
  method RemoveEqualRow(rows: seq<Row>, h: nat) returns (result: seq<Row>)
    requires h < |rows|
    ensures |result| == |rows| - 1
    ensures result[h..] == rows[h + 1..]
  {
    assert rows[h] == rows[h];
    var j :| 0 <= j <= h && rows[j] == rows[h];
    result := rows[..j] + rows[j + 1..];
  }

  // The first data row after its flagged content moved up, and the last row that received it.
  ghost function MergedPair(prev: seq<Row>, tail: Occupancy, cur: seq<Row>, flags: seq<int>, h: nat): (r: (Row, Row))
    requires prev != [] && h < |cur|
    ensures |r.0| == |prev[|prev| - 1]| && |r.1| == |cur[h]|
  {
    var last, first := prev[|prev| - 1], cur[h];
    var v1 := ColumnMap(last, RowStarts(prev, |prev| - 1, {}));
    var v2 := ColumnMap(first, RowStarts(cur[h..], 0, tail));
    ColumnMapInRange(last, RowStarts(prev, |prev| - 1, {}));
    ColumnMapInRange(first, RowStarts(cur[h..], 0, tail));
    Transfer(last, first, v1, v2, flags, 0)
  }

  // The two rows at the boundary and the columns the code finds their cells to start in.
  ghost function BorderOf(prev: seq<Row>, tail: Occupancy, cur: seq<Row>, flags: seq<int>, h: nat): (b: Border)
    requires prev != [] && h < |cur|
    ensures Laid(b)
  {
    var n := |prev| - 1;
    StartsSorted(prev[n], Inherited(prev, n, {}), 0);
    StartsSorted(cur[h], Inherited(cur[h..], 0, tail), 0);
    Border(prev[n], RowStarts(prev, n, {}), cur[h], RowStarts(cur[h..], 0, tail), flags)
  }

  // Content only moves up, and only between cells that are aligned: the upper row keeps what it
  // had and receives what arrives, the lower one gives whole cells and keeps the others.
  lemma MergedPairIsAligned(prev: seq<Row>, tail: Occupancy, cur: seq<Row>, flags: seq<int>, h: nat)
    requires prev != [] && h < |cur|
    ensures var b := BorderOf(prev, tail, cur, flags, h);
      MergedPair(prev, tail, cur, flags, h) == (Received(b), Given(b))
  {
    hide Received, Given, Transfer, ColumnMap, RowStarts, Laid;
    TransferIsAligned(BorderOf(prev, tail, cur, flags, h));
  }

  predicate MergesCells(prev: seq<Row>, cur: seq<Row>, flags: seq<int>, h: nat) {
    flags != [] && h < |cur| && prev != []
  }

  // The rows kept of the current table, from the cut on.
  ghost function KeptAfterCellMerge(prev: seq<Row>, tail: Occupancy, cur: seq<Row>, flags: seq<int>, h: nat): seq<Row>
    requires h <= |cur|
  {
    if !MergesCells(prev, cur, flags, h) then cur[h..] else
      var first := MergedPair(prev, tail, cur, flags, h).1;
      if RowHasSemanticContent(first) then cur[h := first][h..]
      else CarryDown(cur[h := first], h)[h + 1..]
  }

  ghost function PreviousAfterCellMerge(prev: seq<Row>, tail: Occupancy, cur: seq<Row>, flags: seq<int>,
                                        h: nat): (r: seq<Row>)
    requires h <= |cur|
    ensures |r| == |prev|
  {
    if !MergesCells(prev, cur, flags, h) then prev
    else prev[|prev| - 1 := MergedPair(prev, tail, cur, flags, h).0]
  }

  method ApplyCellMerge(prev: seq<Row>, tail: Occupancy, cur: seq<Row>, flags: seq<int>, h: nat)
    returns (prev': seq<Row>, cur': seq<Row>)
    requires h <= |cur|
    ensures prev' == PreviousAfterCellMerge(prev, tail, cur, flags, h)
    ensures |cur'| >= h && cur'[h..] == KeptAfterCellMerge(prev, tail, cur, flags, h)
  {
    hide RowStarts, ColumnMap, Transfer, CarryDown, RowHasSemanticContent;
    if flags == [] || h >= |cur| || prev == [] {
      return prev, cur;
    }
    var firstDataRow, lastRow := cur[h], prev[|prev| - 1];
    var vcolMap1 := BuildVisualColMapping(prev, |prev| - 1, {});
    var vcolMap2 := BuildVisualColMapping(cur[h..], 0, tail);
    var vcolToCell1 := VisualColumnToCell(lastRow, vcolMap1);
    var vcolToCell2 := VisualColumnToCell(firstDataRow, vcolMap2);
    ColumnMapInRange(lastRow, vcolMap1);
    ColumnMapInRange(firstDataRow, vcolMap2);
    var last', first' := TransferCells(lastRow, firstDataRow, vcolToCell1, vcolToCell2, flags);
    prev' := prev[|prev| - 1 := last'];
    cur' := cur[h := first'];
    if !RowHasSemanticContent(first') {
      var carried := CarryRowspanStructureToNextRow(cur', h);
      cur' := RemoveEqualRow(carried, h);
    }
  }

  // ------------------------------------------------- what one merge keeps

  // Row i of `a` and of `b` hold the same semantic nodes in the same order, for all i.
  ghost predicate SameContent(a: seq<Row>, b: seq<Row>) {
    RowsSemantic(a) == RowsSemantic(b)
  }

  // `out` are the previous table's rows followed by the current table's rows from the cut on,
  // less the dropped one, each once and in order; the two rows at the boundary only together.
  ghost predicate KeepsRows(prev: seq<Row>, cur: seq<Row>, flags: seq<int>, cut: nat, dropped: nat, out: seq<Row>) {
    var n := |prev|;
    && cut <= |cur| && dropped <= 1 && (cut == |cur| ==> dropped == 0)
    && |out| == n + (|cur| - cut - dropped)
    && (forall i {:trigger out[i]} :: 0 <= i < n - 1 ==> RowSemantic(out[i]) == RowSemantic(prev[i]))
    && (forall i {:trigger cur[i]} ::
          cut < i < |cur| ==> RowSemantic(out[n + i - cut - dropped]) == RowSemantic(cur[i]))
    && RowsBag(out) == RowsBag(prev) + RowsBag(cur[cut..])
    && (!MergesCells(prev, cur, flags, cut) ==> dropped == 0 && SameContent(out, prev + cur[cut..]))
  }

  // Both tables as the cell merge finds them, after clipping and widening.
  ghost function Prepared(prev: seq<Row>, cur: seq<Row>, cut: nat): (r: (seq<Row>, seq<Row>))
    ensures |r.0| == |prev| && |r.1| == |cur|
  {
    Widened(prev, Clipped(prev, cur, cut), cut)
  }

  ghost function BorderAt(prev: seq<Row>, cur: seq<Row>, flags: seq<int>, cut: nat): (b: Border)
    requires MergesCells(prev, cur, flags, cut)
    ensures Laid(b)
  {
    var (prev1, cur1) := Prepared(prev, cur, cut);
    BorderOf(prev1, Carry(prev1, {}), cur1, flags, cut)
  }

  // The cells at the boundary start where a scan of both tables' rows together finds them, the
  // first kept row's below what the previous rows leave open.
  lemma BorderColumns(prev: seq<Row>, cur: seq<Row>, flags: seq<int>, cut: nat)
    requires MergesCells(prev, cur, flags, cut)
    ensures var (prev1, cur1) := Prepared(prev, cur, cut);
      var b, joined := BorderAt(prev, cur, flags, cut), prev1 + cur1[cut..];
      && b.up == prev1[|prev| - 1] && b.low == cur1[cut] && b.flags == flags
      && b.upStarts == RowStarts(joined, |prev| - 1, {}) && b.lowStarts == RowStarts(joined, |prev|, {})
  {
    hide Prepared, Carry;
    var (prev1, cur1) := Prepared(prev, cur, cut);
    var joined := prev1 + cur1[cut..];
    assert joined[..|prev| - 1] == prev1[..|prev| - 1] && joined[..|prev|] == prev1;
    assert joined[|prev| - 1] == prev1[|prev| - 1] && joined[|prev|] == cur1[cut];
    assert cur1[cut..][..0] == [] && cur1[cut..][0] == cur1[cut];
    NothingYet(Carry(prev1, {}));
  }

  lemma NothingYet(f: Occupancy)
    ensures Carry([], f) == f
  {
  }

  // The first kept row goes when its cells' content went up and nothing else is in it.
  ghost function DroppedRows(prev: seq<Row>, cur: seq<Row>, flags: seq<int>, cut: nat): (n: nat)
    ensures n <= 1
  {
    if MergesCells(prev, cur, flags, cut)
      && !RowHasSemanticContent(Given(BorderAt(prev, cur, flags, cut))) then 1 else 0
  }

  // The same cells in the same order, their colspans aside.
  ghost predicate SameCells(a: Row, b: Row) {
    |a| == |b| && forall i {:trigger a[i]} {:trigger b[i]} :: 0 <= i < |a| ==>
      a[i].content == b[i].content && a[i].rowspan == b[i].rowspan
  }

  // The rows at the boundary after the cell merge, cell by cell.
  ghost predicate AtBorder(prev: seq<Row>, cur: seq<Row>, flags: seq<int>, cut: nat, out: seq<Row>)
    requires MergesCells(prev, cur, flags, cut) && |out| >= |prev|
  {
    var n, b := |prev|, BorderAt(prev, cur, flags, cut);
    && SameCells(prev[n - 1], b.up) && RowSemantic(b.low) == RowSemantic(cur[cut])
    && out[n - 1] == Received(b)
    && (n < |out| && DroppedRows(prev, cur, flags, cut) == 0 ==> out[n] == Given(b))
  }

  // One merge: all rows are kept in order with their content, except that at the boundary whole
  // cells' contents move up to the cells they are aligned with.
  ghost predicate Merges(prev: seq<Row>, cur: seq<Row>, flags: seq<int>, cut: nat, out: seq<Row>) {
    && KeepsRows(prev, cur, flags, cut, DroppedRows(prev, cur, flags, cut), out)
    && (MergesCells(prev, cur, flags, cut) ==> AtBorder(prev, cur, flags, cut, out))
  }

  lemma {:induction false} BagOfSame(a: seq<Row>, b: seq<Row>)
    requires SameContent(a, b)
    ensures RowsBag(a) == RowsBag(b)
  {
    assert |a| == |RowsSemantic(a)| == |b|;
    if a != [] {
      assert RowsSemantic(a)[0] == RowsSemantic(b)[0];
      forall i | 0 <= i < |a| - 1 ensures RowsSemantic(a[1..])[i] == RowsSemantic(b[1..])[i] {
        assert RowsSemantic(a)[i + 1] == RowsSemantic(b)[i + 1];
      }
      BagOfSame(a[1..], b[1..]);
    }
  }

  lemma SizesKept(a: seq<Row>, b: seq<Row>)
    requires SameContent(a, b)
    ensures |a| == |b|
  {
    assert |RowsSemantic(a)| == |RowsSemantic(b)|;
  }

  lemma SameRowContent(a: seq<Row>, b: seq<Row>, i: nat)
    requires SameContent(a, b) && i < |a|
    ensures |a| == |b| && RowSemantic(a[i]) == RowSemantic(b[i])
  {
    assert |a| == |RowsSemantic(a)| == |b|;
    assert RowsSemantic(a)[i] == RowsSemantic(b)[i];
  }

  lemma SameContentOf(a: seq<Row>, b: seq<Row>)
    requires |a| == |b| && forall i {:trigger a[i]} {:trigger b[i]} :: 0 <= i < |a| ==>
      RowSemantic(a[i]) == RowSemantic(b[i])
    ensures SameContent(a, b)
  {
  }

  lemma UpdateRowBag(rows: seq<Row>, i: nat, row: Row)
    requires i < |rows|
    ensures RowsBag(rows[i := row]) + multiset(RowSemantic(rows[i])) == RowsBag(rows) + multiset(RowSemantic(row))
  {
    var r := rows[i := row];
    var a, b := rows[..i], rows[i + 1..];
    assert rows == a + ([rows[i]] + b) && r == a + ([row] + b);
    assert ([rows[i]] + b)[1..] == b && ([row] + b)[1..] == b;
    RowsBagSum(a, [rows[i]] + b);
    RowsBagSum(a, [row] + b);
  }

  lemma TransferBag(prev: seq<Row>, tail: Occupancy, cur: seq<Row>, flags: seq<int>, cut: nat)
    requires MergesCells(prev, cur, flags, cut)
    ensures var r := MergedPair(prev, tail, cur, flags, cut);
      multiset(RowSemantic(r.0)) + multiset(RowSemantic(r.1)) ==
        multiset(RowSemantic(prev[|prev| - 1])) + multiset(RowSemantic(cur[cut]))
  {
    hide RowStarts, ColumnMap, Transfer, RowSemantic;
    var last, first := prev[|prev| - 1], cur[cut];
    var s1, s2 := RowStarts(prev, |prev| - 1, {}), RowStarts(cur[cut..], 0, tail);
    ColumnMapInRange(last, s1);
    ColumnMapInRange(first, s2);
    TransferConserves(last, first, ColumnMap(last, s1), ColumnMap(first, s2), flags, 0);
  }

  lemma ConsBag(row: Row, rows: seq<Row>)
    ensures RowsBag([row] + rows) == multiset(RowSemantic(row)) + RowsBag(rows)
  {
    assert ([row] + rows)[1..] == rows;
  }

  lemma CellMergeBag(prev: seq<Row>, tail: Occupancy, cur: seq<Row>, flags: seq<int>, cut: nat)
    requires MergesCells(prev, cur, flags, cut)
    ensures var r := MergedPair(prev, tail, cur, flags, cut);
      RowsBag(prev[|prev| - 1 := r.0]) + RowsBag([r.1] + cur[cut + 1..]) == RowsBag(prev) + RowsBag(cur[cut..])
  {
    hide RowsBag, MergedPair, RowSemantic;
    var last, first := prev[|prev| - 1], cur[cut];
    TransferBag(prev, tail, cur, flags, cut);
    var r := MergedPair(prev, tail, cur, flags, cut);
    UpdateRowBag(prev, |prev| - 1, r.0);
    var rest := cur[cut + 1..];
    assert cur[cut..] == [first] + rest;
    ConsBag(r.1, rest);
    ConsBag(first, rest);
    BagSwap(RowsBag(prev[|prev| - 1 := r.0]), RowsBag(prev), multiset(RowSemantic(last)), multiset(RowSemantic(r.0)),
            multiset(RowSemantic(first)), multiset(RowSemantic(r.1)), RowsBag(rest));
  }

  lemma BagSwap(p': multiset<Node>, p: multiset<Node>, l: multiset<Node>, l': multiset<Node>,
                f: multiset<Node>, f': multiset<Node>, rest: multiset<Node>)
    requires p' + l == p + l' && l' + f' == l + f
    ensures p' + (f' + rest) == p + (f + rest)
  {
    forall x ensures (p' + (f' + rest))[x] == (p + (f + rest))[x] {
      assert (p' + l)[x] == (p + l')[x];
      assert (l' + f')[x] == (l + f)[x];
    }
  }

  lemma KeptRowMerges(prev: seq<Row>, last: Row, cur: seq<Row>, first: Row, flags: seq<int>, cut: nat)
    requires prev != [] && cut < |cur| && flags != []
    requires RowsBag(prev[|prev| - 1 := last]) + RowsBag([first] + cur[cut + 1..]) ==
      RowsBag(prev) + RowsBag(cur[cut..])
    ensures KeepsRows(prev, cur, flags, cut, 0, prev[|prev| - 1 := last] + cur[cut := first][cut..])
  {
    hide RowSemantic, RowsBag;
    var prev', kept := prev[|prev| - 1 := last], cur[cut := first][cut..];
    assert kept == [first] + cur[cut + 1..];
    RowsBagSum(prev', kept);
  }

  lemma DroppedRowMerges(prev: seq<Row>, last: Row, cur: seq<Row>, first: Row, flags: seq<int>, cut: nat,
                         kept: seq<Row>)
    requires prev != [] && cut < |cur| && flags != []
    requires RowsBag(prev[|prev| - 1 := last]) + RowsBag([first] + cur[cut + 1..]) ==
      RowsBag(prev) + RowsBag(cur[cut..])
    requires RowSemantic(first) == [] && SameContent(kept, cur[cut + 1..])
    ensures KeepsRows(prev, cur, flags, cut, 1, prev[|prev| - 1 := last] + kept)
  {
    hide RowSemantic, RowsBag, RowsSemantic;
    var prev', rest := prev[|prev| - 1 := last], cur[cut + 1..];
    BagOfSame(kept, rest);
    SizesKept(kept, rest);
    RowsBagSum(prev', kept);
    ConsBag(first, rest);
    var out := prev' + kept;
    forall i | cut < i < |cur| ensures RowSemantic(out[|prev| + i - cut - 1]) == RowSemantic(cur[i]) {
      assert out[|prev| + i - cut - 1] == kept[i - cut - 1] && cur[i] == rest[i - cut - 1];
      SameRowContent(kept, rest, i - cut - 1);
    }
  }

  lemma SunkContent(cur: seq<Row>, first: Row, cut: nat)
    requires cut < |cur|
    ensures SameContent(CarryDown(cur[cut := first], cut)[cut + 1..], cur[cut + 1..])
  {
    var cur' := cur[cut := first];
    CarryDownKeepsContent(cur', cut);
    hide RowSemantic, CarryDown;
    var kept := CarryDown(cur', cut)[cut + 1..];
    forall i | 0 <= i < |kept| ensures RowSemantic(kept[i]) == RowSemantic(cur[cut + 1..][i]) {
      SameRowContent(CarryDown(cur', cut), cur', cut + 1 + i);
    }
    SameContentOf(kept, cur[cut + 1..]);
  }

  lemma CellMergeMerges(prev: seq<Row>, tail: Occupancy, cur: seq<Row>, flags: seq<int>, cut: nat)
    requires cut <= |cur|
    ensures var dropped := |cur| - cut - |KeptAfterCellMerge(prev, tail, cur, flags, cut)|;
      && dropped >= 0
      && KeepsRows(prev, cur, flags, cut, dropped,
                PreviousAfterCellMerge(prev, tail, cur, flags, cut) + KeptAfterCellMerge(prev, tail, cur, flags, cut))
  {
    hide RowSemantic, RowsBag, CarryDown, RowHasSemanticContent, MergedPair, KeepsRows, RowsSemantic;
    if !MergesCells(prev, cur, flags, cut) {
      NothingMerged(prev, cur, flags, cut);
    } else {
      CellMergeBag(prev, tail, cur, flags, cut);
      var r := MergedPair(prev, tail, cur, flags, cut);
      if RowHasSemanticContent(r.1) {
        KeptRowMerges(prev, r.0, cur, r.1, flags, cut);
      } else {
        RowSemanticEmpty(r.1);
        SunkContent(cur, r.1, cut);
        DroppedRowMerges(prev, r.0, cur, r.1, flags, cut, CarryDown(cur[cut := r.1], cut)[cut + 1..]);
      }
    }
  }

  lemma NothingMerged(prev: seq<Row>, cur: seq<Row>, flags: seq<int>, cut: nat)
    requires cut <= |cur|
    ensures KeepsRows(prev, cur, flags, cut, 0, prev + cur[cut..])
  {
    hide RowSemantic, RowsBag;
    RowsBagSum(prev, cur[cut..]);
  }

  // Widening and clipping beforehand does not change what a merge keeps.
  lemma MergesTransport(prev: seq<Row>, prev1: seq<Row>, cur: seq<Row>, cur1: seq<Row>, flags: seq<int>, cut: nat,
                        dropped: nat, out: seq<Row>)
    requires SameContent(prev, prev1) && SameContent(cur, cur1) && KeepsRows(prev1, cur1, flags, cut, dropped, out)
    ensures KeepsRows(prev, cur, flags, cut, dropped, out)
  {
    hide RowSemantic, RowsBag, RowsSemantic;
    SizesKept(prev, prev1);
    SizesKept(cur, cur1);
    SameSuffix(cur, cur1, cut);
    SameSum(prev, prev1, cur[cut..], cur1[cut..]);
    BagOfSame(cur[cut..], cur1[cut..]);
    BagOfSame(prev, prev1);
    forall i | 0 <= i < |prev| ensures RowSemantic(prev[i]) == RowSemantic(prev1[i]) {
      SameRowContent(prev, prev1, i);
    }
    forall i | 0 <= i < |cur| ensures RowSemantic(cur[i]) == RowSemantic(cur1[i]) {
      SameRowContent(cur, cur1, i);
    }
  }

  lemma SameSuffix(a: seq<Row>, b: seq<Row>, cut: nat)
    requires SameContent(a, b) && cut <= |a|
    ensures cut <= |b| && SameContent(a[cut..], b[cut..])
  {
    hide RowSemantic;
    assert |a| == |RowsSemantic(a)| == |b|;
    forall i | 0 <= i < |a| - cut ensures RowSemantic(a[cut..][i]) == RowSemantic(b[cut..][i]) {
      SameRowContent(a, b, cut + i);
    }
    SameContentOf(a[cut..], b[cut..]);
  }

  lemma SameSum(a: seq<Row>, a1: seq<Row>, b: seq<Row>, b1: seq<Row>)
    requires SameContent(a, a1) && SameContent(b, b1)
    ensures SameContent(a + b, a1 + b1)
  {
    hide RowSemantic;
    assert |a| == |RowsSemantic(a)| == |a1| && |b| == |RowsSemantic(b)| == |b1|;
    forall i | 0 <= i < |a + b| ensures RowSemantic((a + b)[i]) == RowSemantic((a1 + b1)[i]) {
      if i < |a| {
        SameRowContent(a, a1, i);
      } else {
        SameRowContent(b, b1, i - |a|);
      }
    }
    SameContentOf(a + b, a1 + b1);
  }

  lemma AdjustedSameContent(rows: seq<Row>, result: seq<Row>, startIdx: nat, endIdx: nat, rowEffectiveCols: seq<nat>,
                            structure: seq<nat>, visualCols: nat, targetCols: nat, reference: Row)
    requires startIdx <= endIdx <= |rows| == |rowEffectiveCols|
    requires result ==
      AdjustRows(rows, startIdx, endIdx, rowEffectiveCols, structure, visualCols, targetCols, reference)
    ensures SameContent(rows, result)
  {
    hide RowSemantic, AdjustRow;
    forall i | 0 <= i < |rows| ensures RowSemantic(rows[i]) == RowSemantic(result[i]) {
      AdjustKeepsContent(rows[i], rowEffectiveCols[i], structure, visualCols, targetCols, reference);
    }
    SameContentOf(rows, result);
  }

  lemma ClippedSameContent(occ: Occupancy, rows: seq<Row>, cut: nat, result: seq<Row>)
    requires cut <= |rows| && result == rows[..cut] + Clip(occ, rows[cut..])
    ensures SameContent(rows, result)
  {
    ClipKeepsContent(occ, rows[cut..]);
    hide RowSemantic, Clip;
    var clipped := Clip(occ, rows[cut..]);
    forall i | 0 <= i < |rows| ensures RowSemantic(rows[i]) == RowSemantic(result[i]) {
      if i >= cut {
        assert RowsSemantic(clipped)[i - cut] == RowsSemantic(rows[cut..])[i - cut];
        assert rows[cut..][i - cut] == rows[i];
      }
    }
    SameContentOf(rows, result);
  }

  // ------------------------------------ metrics do not depend on content

  ghost predicate SameShape(a: Row, b: Row) {
    |a| == |b| && forall i {:trigger a[i]} {:trigger b[i]} :: 0 <= i < |a| ==>
      a[i].colspan == b[i].colspan && a[i].rowspan == b[i].rowspan
  }

  lemma {:induction false} ShapeFixesRow(a: Row, b: Row, inh: set<nat>, c: nat)
    requires SameShape(a, b)
    ensures PlaceRow(a, inh, c) == PlaceRow(b, inh, c) && End(a, inh, c) == End(b, inh, c)
    ensures ActualCols(a) == ActualCols(b)
  {
    hide NextFree, Block, SameShape;
    ShapeRest(a, b);
    if a != [] {
      SameBlock(NextFree(inh, c), a[0], b[0]);
      ShapeFixesRow(a[1..], b[1..], inh, NextFree(inh, c) + a[0].colspan);
    }
  }

  lemma SameBlock(start: nat, a: Cell, b: Cell)
    requires a.colspan == b.colspan && a.rowspan == b.rowspan
    ensures Block(start, a) == Block(start, b)
  {
  }

  lemma ShapeRest(a: Row, b: Row)
    requires SameShape(a, b)
    ensures |a| == |b|
    ensures a != [] ==> a[0].colspan == b[0].colspan && a[0].rowspan == b[0].rowspan && SameShape(a[1..], b[1..])
  {
  }

  lemma {:induction false} ShapeFixesMetrics(a: seq<Row>, b: seq<Row>, f: Occupancy, idx: nat)
    requires |a| == |b| && forall i {:trigger a[i]} {:trigger b[i]} :: 0 <= i < |a| ==> SameShape(a[i], b[i])
    ensures EffectiveCols(a, f) == EffectiveCols(b, f) && Carry(a, f) == Carry(b, f)
    ensures RowsWidth(a, f) == RowsWidth(b, f) && LastNonempty(a, f, idx) == LastNonempty(b, f, idx)
  {
    if a != [] {
      ShapeFixesRow(a[0], b[0], RowCols(f, 0), 0);
      assert Metric(a[0], f, idx) == Metric(b[0], f, idx) && Advance(f, a[0]) == Advance(f, b[0]);
      hide Metric, Advance, End, SameShape;
      ShapeFixesMetrics(a[1..], b[1..], Advance(f, a[0]), idx + 1);
    }
  }

  lemma CellMergeKeepsMetrics(prev: seq<Row>, tail: Occupancy, cur: seq<Row>, flags: seq<int>, cut: nat)
    requires cut <= |cur|
    ensures var prev' := PreviousAfterCellMerge(prev, tail, cur, flags, cut);
      && EffectiveCols(prev', {}) == EffectiveCols(prev, {}) && TotalCols(prev', {}) == TotalCols(prev, {})
      && LastNonempty(prev', {}, 0) == LastNonempty(prev, {}, 0) && Carry(prev', {}) == Carry(prev, {})
  {
    var prev' := PreviousAfterCellMerge(prev, tail, cur, flags, cut);
    if MergesCells(prev, cur, flags, cut) {
      MergedShape(prev, tail, cur, flags, cut);
    }
    ShapeFixesMetrics(prev', prev, {}, 0);
  }

  lemma MergedShape(prev: seq<Row>, tail: Occupancy, cur: seq<Row>, flags: seq<int>, cut: nat)
    requires MergesCells(prev, cur, flags, cut)
    ensures SameShape(MergedPair(prev, tail, cur, flags, cut).0, prev[|prev| - 1])
    ensures SameShape(MergedPair(prev, tail, cur, flags, cut).1, cur[cut])
  {
    var last, first := prev[|prev| - 1], cur[cut];
    var s1, s2 := RowStarts(prev, |prev| - 1, {}), RowStarts(cur[cut..], 0, tail);
    ColumnMapInRange(last, s1);
    ColumnMapInRange(first, s2);
    TransferMeaning(last, first, ColumnMap(last, s1), ColumnMap(first, s2), flags);
  }

  // ------------------------------------------------------------- the merge

  ghost function LeastClosed(rows: seq<Row>, from: nat): (cut: nat)
    requires from <= |rows|
    ensures from <= cut <= |rows| && Closed(rows, cut)
    ensures forall c: nat {:trigger Closed(rows, c)} :: from <= c && Closed(rows, c) ==> cut <= c
    decreases |rows| - from
  {
    if Closed(rows, from) then from else LeastClosed(rows, from + 1)
  }

  // Rows skipped as a repeated header: the detected count, widened to a closed cut.
  ghost function HeaderCut(rows: seq<Row>, headerCount: nat): (cut: nat)
    ensures rows != [] ==> cut <= |rows|
  {
    if headerCount == 0 || rows == [] then headerCount else LeastClosed(rows, Min(headerCount, |rows|))
  }

  lemma HeaderCutUnique(rows: seq<Row>, headerCount: nat, cut: int)
    requires headerCount == 0 || rows == [] ==> cut == headerCount
    requires headerCount > 0 && rows != [] ==>
      && Min(headerCount, |rows|) <= cut && Closed(rows, cut)
      && forall c: nat {:trigger Closed(rows, c)} :: Min(headerCount, |rows|) <= c && Closed(rows, c) ==> cut <= c
    ensures cut == HeaderCut(rows, headerCount)
  {
  }

  // Both row lists after the narrower table is widened.
  ghost function Widened(prev: seq<Row>, cur: seq<Row>, cut: nat): (r: (seq<Row>, seq<Row>))
    ensures |r.0| == |prev| && |r.1| == |cur|
  {
    if prev == [] || cut >= |cur| then (prev, cur) else
      var last, first, w1, w2 := prev[|prev| - 1], cur[cut], TotalCols(prev, {}), TotalCols(cur, {});
      if w1 > w2 then
        (prev, AdjustRows(cur, cut, |cur|, EffectiveCols(cur, {}), Colspans(last), |last|, w1, first))
      else if w2 > w1 then
        (AdjustRows(prev, 0, |prev|, EffectiveCols(prev, {}), Colspans(first), |first|, w2, last), cur)
      else (prev, cur)
  }

  ghost function Clipped(prev: seq<Row>, cur: seq<Row>, cut: nat): (r: seq<Row>)
    ensures |r| == |cur|
  {
    if cut >= |cur| then cur else cur[..cut] + Clip(Carry(prev, {}), cur[cut..])
  }

  // All rows of the previous table after one merge.
  ghost function MergedRows(prev: seq<Row>, cur: seq<Row>, flags: seq<int>, cut: nat, bodies: bool): seq<Row> {
    var (prev1, cur1) := Widened(prev, Clipped(prev, cur, cut), cut);
    if cut > |cur| then prev1 else
      var tail := Carry(prev1, {});
      PreviousAfterCellMerge(prev1, tail, cur1, flags, cut)
      + (if bodies then KeptAfterCellMerge(prev1, tail, cur1, flags, cut) else [])
  }

  // Widens the rows of one table to the width of the other one.
  method MatchWidths(previous: TableMergeState, current: TableMergeState, cut: nat)
    requires previous != current && previous.Valid()
    requires cut < |current.rows| ==> current.Valid()
    modifies previous, current
    ensures previous.Valid() && previous.dirty == old(previous.dirty)
    ensures (previous.rows, current.rows) == Widened(old(previous.rows), old(current.rows), cut)
  {
    hide EffectiveCols, TotalCols, LastNonempty, Carry, RowsSemantic, Colspans, AdjustRows;
    var rows1, rows2 := previous.rows, current.rows;
    if rows1 == [] || rows2 == [] || cut >= |rows2| {
      return;
    }
    var lastRow1, firstDataRow2 := rows1[|rows1| - 1], rows2[cut];
    if previous.totalCols > current.totalCols {
      current.rows := AdjustTableRowsColspan(rows2, cut, |rows2|, current.rowEffectiveCols,
                                             Colspans(lastRow1), |lastRow1|, previous.totalCols, firstDataRow2);
    } else if current.totalCols > previous.totalCols {
      previous.rows := AdjustTableRowsColspan(rows1, 0, |rows1|, previous.rowEffectiveCols,
                                              Colspans(firstDataRow2), |firstDataRow2|, current.totalCols, lastRow1);
      previous.Refresh();
    }
  }

  // Clips the placeholders the previous page's open rowspans already cover.
  method ClipCurrent(previous: TableMergeState, current: TableMergeState, cut: nat)
    requires previous != current && previous.Valid() && current.Valid()
    modifies current
    ensures current.Valid()
    ensures current.rows == Clipped(previous.rows, old(current.rows), cut)
  {
    hide EffectiveCols, TotalCols, LastNonempty, Carry, Clip;
    if cut < |current.rows| {
      var before := current.rows;
      var clippedRows, clipped := ClipOverlappedBlankRowspanCells(before[cut..], previous.tailOccupied);
      if clipped {
        current.rows := before[..cut] + clippedRows;
        current.Refresh();
      } else {
        assert before == before[..cut] + before[cut..];
      }
    }
  }

  // Moves the flagged content up, then appends what is left from the cut on.
  method MoveAndAppend(previous: TableMergeState, current: TableMergeState, cut: nat)
    requires previous != current && previous.Valid() && cut <= |current.rows|
    modifies previous, current
    ensures previous.Valid()
    ensures previous.rows ==
      PreviousAfterCellMerge(old(previous.rows), old(previous.tailOccupied), old(current.rows), current.cellMerge, cut)
      + (if previous.hasBody && current.hasBody
         then KeptAfterCellMerge(old(previous.rows), old(previous.tailOccupied), old(current.rows),
           current.cellMerge, cut)
         else [])
  {
    hide EffectiveCols, TotalCols, LastNonempty, Carry, PreviousAfterCellMerge, KeptAfterCellMerge;
    CellMergeKeepsMetrics(previous.rows, previous.tailOccupied, current.rows, current.cellMerge, cut);
    var prev', cur' := ApplyCellMerge(previous.rows, previous.tailOccupied, current.rows, current.cellMerge, cut);
    previous.rows := prev';
    current.rows := cur';
    if previous.hasBody && current.hasBody {
      previous.Append(current.rows[cut..]);
    } else {
      assert prev' + [] == prev';
    }
  }

  // Every cached metric of the surviving state stays what a fresh scan would give, and its
  // rows are those of `MergedRows`.
  method PerformTableMerge(previous: TableMergeState, current: TableMergeState, headerCount: nat)
    requires previous != current && previous.Valid() && current.Valid()
    modifies previous, current
    ensures previous.Valid() && previous.dirty
    ensures previous.rows == MergedRows(old(previous.rows), old(current.rows), current.cellMerge,
                                        HeaderCut(old(current.rows), headerCount), previous.hasBody && current.hasBody)
  {
    hide EffectiveCols, TotalCols, LastNonempty, Carry, Clip, PreviousAfterCellMerge, KeptAfterCellMerge, Widened;
    hide Clipped, HeaderCut;
    var cut := ExpandHeaderCountByRowspan(current.rows, headerCount);
    HeaderCutUnique(current.rows, headerCount, cut);
    ClipCurrent(previous, current, cut);
    MatchWidths(previous, current, cut);
    if cut <= |current.rows| {
      MoveAndAppend(previous, current, cut);
    }
    previous.dirty := true;
  }

  // --------------------------------------------- conservation of one merge

  lemma MergedRowsMerge(prev: seq<Row>, cur: seq<Row>, flags: seq<int>, cut: nat)
    requires cut <= |cur|
    ensures Merges(prev, cur, flags, cut, MergedRows(prev, cur, flags, cut, true))
  {
    hide EffectiveCols, TotalCols, Carry, Clip, KeepsRows, PreviousAfterCellMerge, KeptAfterCellMerge;
    hide Widened, Clipped, AtBorder, DroppedRows;
    PreparedSameContent(prev, cur, cut);
    var (prev1, cur1) := Prepared(prev, cur, cut);
    CellMergeMerges(prev1, Carry(prev1, {}), cur1, flags, cut);
    DroppedIs(prev, cur, flags, cut);
    var out := MergedRows(prev, cur, flags, cut, true);
    MergesTransport(prev, prev1, cur, cur1, flags, cut, DroppedRows(prev, cur, flags, cut), out);
    if MergesCells(prev, cur, flags, cut) {
      BorderReached(prev, cur, flags, cut, true);
    }
  }

  // The rows dropped are those missing after the cell merge.
  lemma DroppedIs(prev: seq<Row>, cur: seq<Row>, flags: seq<int>, cut: nat)
    requires cut <= |cur|
    ensures var (prev1, cur1) := Prepared(prev, cur, cut);
      |KeptAfterCellMerge(prev1, Carry(prev1, {}), cur1, flags, cut)| ==
        |cur| - cut - DroppedRows(prev, cur, flags, cut)
  {
    hide Prepared, Carry, MergedPair, Given, Received, RowHasSemanticContent, BorderOf, CarryDown;
    var (prev1, cur1) := Prepared(prev, cur, cut);
    if MergesCells(prev, cur, flags, cut) {
      MergedPairIsAligned(prev1, Carry(prev1, {}), cur1, flags, cut);
    }
  }

  // What the boundary rows hold after one merge, with or without a body to append to.
  lemma BorderReached(prev: seq<Row>, cur: seq<Row>, flags: seq<int>, cut: nat, bodies: bool)
    requires MergesCells(prev, cur, flags, cut)
    ensures |MergedRows(prev, cur, flags, cut, bodies)| >= |prev|
    ensures AtBorder(prev, cur, flags, cut, MergedRows(prev, cur, flags, cut, bodies))
  {
    hide Widened, Clipped, Carry, MergedPair, Given, Received, RowHasSemanticContent, BorderOf, CarryDown, RowSemantic;
    hide SameCells, RowsSemantic;
    PreparedSameContent(prev, cur, cut);
    var (prev1, cur1) := Prepared(prev, cur, cut);
    MergedPairIsAligned(prev1, Carry(prev1, {}), cur1, flags, cut);
    SameRowContent(cur, cur1, cut);
    BorderRows(prev1, Carry(prev1, {}), cur1, flags, cut);
  }

  // Row i of a merged table is one of the two at a boundary with flagged cells.
  ghost predicate IsBorder(prev: seq<Row>, cur: seq<Row>, flags: seq<int>, cut: nat, i: nat) {
    && MergesCells(prev, cur, flags, cut)
    && (i == |prev| - 1 || (i == |prev| && DroppedRows(prev, cur, flags, cut) == 0))
  }

  lemma MergedRowsCount(prev: seq<Row>, cur: seq<Row>, flags: seq<int>, cut: nat, bodies: bool)
    requires cur != [] ==> cut <= |cur|
    ensures var from := cut + DroppedRows(prev, cur, flags, cut);
      |MergedRows(prev, cur, flags, cut, bodies)| == |prev| + (if bodies && from <= |cur| then |cur| - from else 0)
  {
    hide MergedRows, DroppedRows, RowsBag, AtBorder, RowSemantic;
    if cut > |cur| {
      NothingCurrent(prev, cur, flags, cut, bodies);
    } else {
      MergedRowsMerge(prev, cur, flags, cut);
      MergedWithoutBody(prev, cur, flags, cut);
    }
  }

  // Where each row of one merge comes from, with or without a body to append to.
  lemma MergedRowOrigin(prev: seq<Row>, cur: seq<Row>, flags: seq<int>, cut: nat, bodies: bool, i: nat)
    requires cur != [] ==> cut <= |cur|
    requires i < |MergedRows(prev, cur, flags, cut, bodies)| && !IsBorder(prev, cur, flags, cut, i)
    ensures var from := cut + DroppedRows(prev, cur, flags, cut);
      && (i >= |prev| ==> i - |prev| + from < |cur|)
      && RowSemantic(MergedRows(prev, cur, flags, cut, bodies)[i]) ==
         if i < |prev| then RowSemantic(prev[i]) else RowSemantic(cur[i - |prev| + from])
  {
    hide MergedRows, DroppedRows, RowSemantic, IsBorder, Merges;
    if cut > |cur| {
      NothingCurrent(prev, cur, flags, cut, bodies);
    } else {
      MergedRowsMerge(prev, cur, flags, cut);
      MergedWithoutBody(prev, cur, flags, cut);
      KeptRowOrigin(prev, cur, flags, cut, MergedRows(prev, cur, flags, cut, true), i);
    }
  }

  lemma KeptRowOrigin(prev: seq<Row>, cur: seq<Row>, flags: seq<int>, cut: nat, out: seq<Row>, i: nat)
    requires Merges(prev, cur, flags, cut, out) && i < |out| && !IsBorder(prev, cur, flags, cut, i)
    ensures var from := cut + DroppedRows(prev, cur, flags, cut);
      && from <= |cur| && (i >= |prev| ==> i - |prev| + from < |cur|)
      && RowSemantic(out[i]) == if i < |prev| then RowSemantic(prev[i]) else RowSemantic(cur[i - |prev| + from])
  {
    hide RowSemantic, RowsBag, AtBorder, DroppedRows;
    var n, from := |prev|, cut + DroppedRows(prev, cur, flags, cut);
    if MergesCells(prev, cur, flags, cut) {
      if i >= n {
        assert cur[i - n + from] == cur[i - n + from];
      }
    } else {
      SameRowContent(out, prev + cur[cut..], i);
    }
  }

  lemma NothingCurrent(prev: seq<Row>, cur: seq<Row>, flags: seq<int>, cut: nat, bodies: bool)
    requires cur == [] && cut > |cur|
    ensures MergedRows(prev, cur, flags, cut, bodies) == prev && DroppedRows(prev, cur, flags, cut) == 0
  {
  }

  // Without a body to append to, the merge leaves the previous rows it would leave with one.
  lemma MergedWithoutBody(prev: seq<Row>, cur: seq<Row>, flags: seq<int>, cut: nat)
    requires cut <= |cur|
    ensures |MergedRows(prev, cur, flags, cut, true)| >= |prev|
    ensures MergedRows(prev, cur, flags, cut, false) == MergedRows(prev, cur, flags, cut, true)[..|prev|]
  {
    hide Prepared, Carry, PreviousAfterCellMerge, KeptAfterCellMerge;
  }

  lemma BorderRows(prev: seq<Row>, tail: Occupancy, cur: seq<Row>, flags: seq<int>, h: nat)
    requires prev != [] && h < |cur|
    ensures BorderOf(prev, tail, cur, flags, h).up == prev[|prev| - 1]
    ensures BorderOf(prev, tail, cur, flags, h).low == cur[h]
  {
  }

  // Clipping and widening keep every row's content, and the previous rows' cells one by one.
  lemma PreparedSameContent(prev: seq<Row>, cur: seq<Row>, cut: nat)
    ensures SameContent(prev, Prepared(prev, cur, cut).0) && SameContent(cur, Prepared(prev, cur, cut).1)
    ensures forall i {:trigger prev[i]} :: 0 <= i < |prev| ==> SameCells(prev[i], Prepared(prev, cur, cut).0[i])
  {
    hide EffectiveCols, TotalCols, Carry, Clip, RowsSemantic;
    var cur' := Clipped(prev, cur, cut);
    if cut < |cur| {
      ClippedSameContent(Carry(prev, {}), cur, cut, cur');
    }
    WidenedSameContent(prev, cur', cut);
  }

  lemma WidenedSameContent(prev: seq<Row>, cur: seq<Row>, cut: nat)
    ensures SameContent(prev, Widened(prev, cur, cut).0) && SameContent(cur, Widened(prev, cur, cut).1)
  {
    hide EffectiveCols, TotalCols, RowsSemantic;
    if prev != [] && cut < |cur| {
      var last, first, w1, w2 := prev[|prev| - 1], cur[cut], TotalCols(prev, {}), TotalCols(cur, {});
      if w1 > w2 {
        AdjustedSameContent(cur, Widened(prev, cur, cut).1, cut, |cur|, EffectiveCols(cur, {}), Colspans(last),
          |last|, w1, first);
      } else if w2 > w1 {
        AdjustedSameContent(prev, Widened(prev, cur, cut).0, 0, |prev|, EffectiveCols(prev, {}), Colspans(first),
          |first|, w2, last);
      }
    }
  }

  // ------------------------------------- deleting the first kept data row

  // When the cell merge empties the first kept data row, deleting it leaves the slots of the
  // kept rows, appended below what the previous page left open, as they were exactly when
  // nothing was left open and the next row tiles its columns; every later row's cells then
  // stay in their visual columns and the same rowspans stay open.
  lemma DroppedRowKeepsLayout(prev: seq<Row>, tail: Occupancy, cur: seq<Row>, flags: seq<int>, cut: nat)
    requires MergesCells(prev, cur, flags, cut) && cut + 1 < |cur| && Closed(cur, cut) && Hanging(tail)
    requires !RowHasSemanticContent(MergedPair(prev, tail, cur, flags, cut).1)
    requires Wide(cur[cut]) && Wide(cur[cut + 1]) && Tall(cur[cut + 1])
    ensures var moved := cur[cut := MergedPair(prev, tail, cur, flags, cut).1];
      var kept := KeptAfterCellMerge(prev, tail, cur, flags, cut);
      var tiles := Tiles(cur[cut + 1], Inherited(moved, cut + 1, {}));
      && |kept| == |cur| - cut - 1
      && (StandsIn(tail, moved[cut], moved[cut + 1], kept[0]) <==> tail == {} && tiles)
      && (tail == {} && tiles ==>
            && Carry(kept, {}) == Carry(moved, {})
            && forall t: nat {:trigger RowStarts(kept, t, {})} :: 1 <= t < |kept| ==>
                 RowStarts(kept, t, {}) == RowStarts(moved, cut + 1 + t, {}))
  {
    hide Tiles, Land, Carry, RowStarts, Inherited, CarryDown, Hanging, StandsIn;
    var moved := cur[cut := MergedPair(prev, tail, cur, flags, cut).1];
    ClosedCarriesNothing(cur, cut);
    assert moved[..cut] == cur[..cut];
    MergedShape(prev, tail, cur, flags, cut);
    hide MergedPair, RowHasSemanticContent;
    assert forall k :: 0 <= k < |moved[cut]| ==> moved[cut][k].colspan == cur[cut][k].colspan;
    SinkingIsExact(tail, moved, cut);
    if Tiles(cur[cut + 1], Inherited(moved, cut + 1, {})) {
      SinkingKeepsLaterRows(moved, cut);
    }
  }
}
