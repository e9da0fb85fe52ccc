/**
 Where the cells of one row end up: the mapping from explicit cells to visual
 columns, re-derived from the finished occupancy, and the rendered segments.
 */
module TableLayout {
  import opened Wrappers
  import opened TableGrid

  // (source row, source cell); row -1 stands for a rowspan of the previous page.
  datatype Marker = Marker(row: int, cell: nat)
  type Sources = map<Slot, Marker>

  datatype Segment = Segment(source: Marker, startCol: nat, endCol: nat)

  // Columns of row t inherited from the rows above it or from the previous page.
  ghost function Inherited(rows: seq<Row>, t: nat, init: Occupancy): set<nat>
    requires t < |rows|
  {
    RowCols(Carry(rows[..t], init), 0)
  }

  // Start columns the forward scan gives to the cells of row t.
  ghost function RowStarts(rows: seq<Row>, t: nat, init: Occupancy): (s: seq<nat>)
    requires t < |rows|
    ensures |s| == |rows[t]|
  {
    Starts(rows[t], Inherited(rows, t, init), 0)
  }

  // Columns the forward scan finds occupied in row t.
  ghost function OccupiedCols(rows: seq<Row>, t: nat, init: Occupancy): set<nat>
    requires t < |rows|
  {
    RowCols(Land(Carry(rows[..t], init), rows[t]), 0)
  }

  // Python's reading of a possibly negative row index.
  function ResolveIndex(index: int, n: nat): int
  {
    if index < 0 then index + n else index
  }

  lemma EffectiveWithinReach(f: Occupancy, row: Row)
    ensures RowsWidth([row], f) <= Max(WidthOf(AllCols(f)), End(row, RowCols(f, 0), 0))
  {
    assert [row][1..] == [];
    var w := Max(WidthOf(AllCols(f)), End(row, RowCols(f, 0), 0));
    PlaceRowBelowEnd(row, RowCols(f, 0), 0);
    forall c | c in RowCols(Land(f, row), 0) ensures c < w {
      assert Slot(0, c) in Land(f, row);
    }
    WidthMonotone(RowCols(Land(f, row), 0), w);
  }

  lemma CarrySnoc(rows: seq<Row>, t: nat, init: Occupancy)
    requires t < |rows|
    ensures Carry(rows[..t + 1], init) == Advance(Carry(rows[..t], init), rows[t])
    ensures TotalCols(rows[..t + 1], init) ==
      Max(TotalCols(rows[..t], init), End(rows[t], Inherited(rows, t, init), 0))
  {
    var f := Carry(rows[..t], init);
    assert rows[..t + 1] == rows[..t] + [rows[t]];
    ScanComposes(rows[..t], [rows[t]], init, 0);
    assert [rows[t]][1..] == [];
    CarryWidth(rows[..t], init);
    EffectiveWithinReach(f, rows[t]);
  }

  // ------------------------------------------------- layout of one row

  // Blocks follow one another from column c on, each at a free column, and stay below e.
  ghost predicate Sorted(s: seq<nat>, row: Row, inh: set<nat>, c: nat, e: nat)
    requires |s| == |row|
  {
    && (forall k {:trigger s[k]} :: 0 <= k < |row| ==> c <= s[k] && s[k] !in inh && s[k] + row[k].colspan <= e)
    && (forall j, k {:trigger s[j], s[k]} :: 0 <= j < k < |row| ==> s[j] + row[j].colspan <= s[k])
  }

  lemma {:induction false} StartsSorted(row: Row, inh: set<nat>, c: nat)
    ensures Sorted(Starts(row, inh, c), row, inh, c, End(row, inh, c))
  {
    if row != [] {
      var c' := NextFree(inh, c) + row[0].colspan;
      StartsSorted(row[1..], inh, c');
      SortedCons(NextFree(inh, c), Starts(row[1..], inh, c'), row, inh, c, End(row, inh, c));
    }
  }

  lemma SortedCons(f: nat, s: seq<nat>, row: Row, inh: set<nat>, c: nat, e: nat)
    requires row != [] && |s| == |row| - 1
    requires c <= f && f !in inh && f + row[0].colspan <= e
    requires Sorted(s, row[1..], inh, f + row[0].colspan, e)
    ensures Sorted([f] + s, row, inh, c, e)
  {
    var t := [f] + s;
    assert forall k {:trigger t[k]} :: 1 <= k < |row| ==> t[k] == s[k - 1] && row[k] == row[1..][k - 1];
  }

  lemma {:induction false} PlaceRowMembers(row: Row, inh: set<nat>, c: nat, s: Slot)
    ensures s in PlaceRow(row, inh, c) <==>
      exists k :: 0 <= k < |row| && s in Block(Starts(row, inh, c)[k], row[k])
  {
    if row != [] {
      var c' := NextFree(inh, c) + row[0].colspan;
      PlaceRowMembers(row[1..], inh, c', s);
      var st, st' := Starts(row, inh, c), Starts(row[1..], inh, c');
      assert forall k :: 0 <= k < |row| - 1 ==> st[k + 1] == st'[k] && row[k + 1] == row[1..][k];
      if s in PlaceRow(row, inh, c) && s !in Block(st[0], row[0]) {
        var k :| 0 <= k < |row[1..]| && s in Block(st'[k], row[1..][k]);
        assert s in Block(st[k + 1], row[k + 1]);
      }
    }
  }

  // ------------------------------------------------------ visual sources

  function BlockAt(r: nat, c: nat, cell: Cell): (b: Occupancy)
    ensures forall s {:trigger s in b} :: s in b <==>
      r <= s.row < r + cell.rowspan && c <= s.col < c + cell.colspan
  {
    set i: nat, j: nat | r <= i < r + cell.rowspan && c <= j < c + cell.colspan :: Slot(i, j)
  }

  function Stamp(sources: Sources, r: nat, c: nat, cell: Cell, marker: Marker): (m: Sources)
    ensures m.Keys == sources.Keys + BlockAt(r, c, cell)
    ensures forall s {:trigger m[s]} :: s in m ==> m[s] == (if s in BlockAt(r, c, cell) then marker else sources[s])
  {
    map s | s in sources.Keys + BlockAt(r, c, cell) :: if s in BlockAt(r, c, cell) then marker else sources[s]
  }

  // The dictionary after cells k.. of row r are stamped, column cursor at c.
  ghost function PlaceSources(sources: Sources, r: nat, row: Row, k: nat, inh: set<nat>, c: nat): Sources
    requires k <= |row|
    decreases |row| - k
  {
    if k == |row| then sources else
      var f := NextFree(inh, c);
      PlaceSources(Stamp(sources, r, f, row[k], Marker(r, k)), r, row, k + 1, inh, f + row[k].colspan)
  }

  function InitialSources(init: Occupancy): Sources
  {
    map s | s in init :: Marker(-1, s.col)
  }

  // The dictionary once rows[..t] are scanned.
  ghost function SourcesAbove(rows: seq<Row>, t: nat, init: Occupancy): Sources
    requires t <= |rows|
  {
    if t == 0 then InitialSources(init) else
      var above := SourcesAbove(rows, t - 1, init);
      PlaceSources(above, t - 1, rows[t - 1], 0, RowCols(above.Keys, t - 1), 0)
  }

  function RowOf(sources: Sources, t: nat): (m: map<nat, Marker>)
    ensures m.Keys == RowCols(sources.Keys, t)
    ensures forall c {:trigger m[c]} :: c in m ==> m[c] == sources[Slot(t, c)]
  {
    map c | c in RowCols(sources.Keys, t) :: sources[Slot(t, c)]
  }

  ghost function VisualSources(rows: seq<Row>, t: nat, init: Occupancy): map<nat, Marker>
    requires t < |rows|
  {
    RowOf(SourcesAbove(rows, t + 1, init), t)
  }

  predicate TakesColumn(start: nat, cell: Cell, col: nat)
  {
    start <= col < start + cell.colspan && cell.rowspan > 0
  }

  // With the first k cells of row r stamped, each own block carries that cell's
  // marker and no other slot carries a marker of row r or below.
  ghost predicate RowMarked(sources: Sources, r: nat, row: Row, starts: seq<nat>, k: nat)
    requires k <= |row| == |starts|
  {
    && (forall j: nat, c: nat {:trigger TakesColumn(starts[j], row[j], c)} ::
         j < k && TakesColumn(starts[j], row[j], c) ==> Slot(r, c) in sources && sources[Slot(r, c)] == Marker(r, j))
    && (forall s {:trigger sources[s]} :: s in sources && sources[s].row >= r ==>
         && sources[s].row == r && sources[s].cell < k
         && TakesColumn(starts[sources[s].cell], row[sources[s].cell], s.col))
  }

  lemma MarkStep(sources: Sources, r: nat, row: Row, starts: seq<nat>, k: nat)
    requires k < |row| == |starts|
    requires forall j: nat {:trigger starts[j]} :: j < k ==> starts[j] + row[j].colspan <= starts[k]
    requires RowMarked(sources, r, row, starts, k)
    ensures RowMarked(Stamp(sources, r, starts[k], row[k], Marker(r, k)), r, row, starts, k + 1)
  {
    var next := Stamp(sources, r, starts[k], row[k], Marker(r, k));
    forall j: nat, c: nat | j < k + 1 && TakesColumn(starts[j], row[j], c)
      ensures Slot(r, c) in next && next[Slot(r, c)] == Marker(r, j)
    {
      if j < k {
        assert Slot(r, c) in sources && starts[j] + row[j].colspan <= starts[k];
      }
    }
    forall s | s in next && next[s].row >= r
      ensures next[s].row == r && next[s].cell < k + 1 && TakesColumn(starts[next[s].cell], row[next[s].cell], s.col)
    {
      if s !in BlockAt(r, starts[k], row[k]) {
        assert next[s] == sources[s];
      }
    }
  }

  lemma ShiftStamp(sources: Sources, r: nat, c: nat, cell: Cell, marker: Marker)
    ensures Shift(Stamp(sources, r, c, cell, marker).Keys, r) == Shift(sources.Keys, r) + Block(c, cell)
  {
  }

  lemma StartsCons(rest: Row, inh: set<nat>, c: nat)
    requires rest != []
    ensures var c' := NextFree(inh, c) + rest[0].colspan;
      && Starts(rest, inh, c)[0] == NextFree(inh, c)
      && Starts(rest, inh, c)[1..] == Starts(rest[1..], inh, c')
      && PlaceRow(rest, inh, c) == Block(NextFree(inh, c), rest[0]) + PlaceRow(rest[1..], inh, c')
  {
  }

  lemma StartsStep(row: Row, inh: set<nat>, k: nat, c: nat, starts: seq<nat>)
    requires k < |row| == |starts|
    requires starts[k..] == Starts(row[k..], inh, c)
    ensures starts[k] == NextFree(inh, c)
    ensures starts[k + 1..] == Starts(row[k + 1..], inh, NextFree(inh, c) + row[k].colspan)
    ensures PlaceRow(row[k..], inh, c) ==
      Block(starts[k], row[k]) + PlaceRow(row[k + 1..], inh, NextFree(inh, c) + row[k].colspan)
  {
    hide NextFree, Block, Starts, PlaceRow;
    assert row[k..][0] == row[k] && row[k..][1..] == row[k + 1..];
    StartsCons(row[k..], inh, c);
    assert starts[k] == starts[k..][0] && starts[k + 1..] == starts[k..][1..];
  }

  lemma StartsBefore(row: Row, inh: set<nat>, k: nat)
    requires k < |row|
    ensures forall j: nat {:trigger Starts(row, inh, 0)[j]} :: j < k ==>
      Starts(row, inh, 0)[j] + row[j].colspan <= Starts(row, inh, 0)[k]
  {
    StartsSorted(row, inh, 0);
  }

  lemma NothingPlaced(inh: set<nat>, c: nat)
    ensures PlaceRow([], inh, c) == {}
  {
  }

  // Stamping the rest of row r: the keys are those of the forward scan, and the row ends up marked.
  lemma {:induction false} PlaceSourcesMarks(sources: Sources, r: nat, row: Row, k: nat, inh: set<nat>, c: nat,
                                             starts: seq<nat>)
    requires k <= |row| && starts == Starts(row, inh, 0)
    requires starts[k..] == Starts(row[k..], inh, c)
    requires RowMarked(sources, r, row, starts, k)
    ensures var m := PlaceSources(sources, r, row, k, inh, c);
      && Shift(m.Keys, r) == Shift(sources.Keys, r) + PlaceRow(row[k..], inh, c)
      && RowMarked(m, r, row, starts, |row|)
    decreases |row| - k
  {
    hide RowMarked, Shift, Stamp, NextFree, Block, Starts, PlaceRow;
    if k == |row| {
      assert row[k..] == [];
      NothingPlaced(inh, c);
    } else {
      var f := NextFree(inh, c);
      StartsStep(row, inh, k, c, starts);
      StartsBefore(row, inh, k);
      MarkStep(sources, r, row, starts, k);
      ShiftStamp(sources, r, f, row[k], Marker(r, k));
      PlaceSourcesMarks(Stamp(sources, r, f, row[k], Marker(r, k)), r, row, k + 1, inh, f + row[k].colspan, starts);
    }
  }

  lemma {:induction false} SourcesMarks(rows: seq<Row>, t: nat, init: Occupancy)
    requires t <= |rows|
    ensures Shift(SourcesAbove(rows, t, init).Keys, t) == Carry(rows[..t], init)
    ensures RowsBelow(SourcesAbove(rows, t, init), t)
    ensures t > 0 ==>
      RowMarked(SourcesAbove(rows, t, init), t - 1, rows[t - 1], RowStarts(rows, t - 1, init), |rows[t - 1]|)
    ensures t > 0 ==> RowCols(SourcesAbove(rows, t, init).Keys, t - 1) == OccupiedCols(rows, t - 1, init)
  {
    hide RowMarked, RowsBelow, PlaceSources, Starts, Advance, Land, TotalCols, End;
    if t == 0 {
      NoSourceMarks(rows, init);
    } else {
      hide Carry, Shift, RowCols;
      SourcesMarks(rows, t - 1, init);
      CarrySnoc(rows, t - 1, init);
      SourcesMarksStep(SourcesAbove(rows, t - 1, init), t - 1, rows[t - 1], Carry(rows[..t - 1], init));
    }
  }

  lemma NoSourceMarks(rows: seq<Row>, init: Occupancy)
    ensures Shift(SourcesAbove(rows, 0, init).Keys, 0) == Carry(rows[..0], init)
    ensures RowsBelow(SourcesAbove(rows, 0, init), 0)
  {
    assert rows[..0] == [];
    assert Shift(init, 0) == init;
  }

  ghost predicate RowsBelow(sources: Sources, t: nat)
  {
    forall s {:trigger sources[s]} :: s in sources ==> sources[s].row < t
  }

  lemma SourcesMarksStep(above: Sources, r: nat, row: Row, f: Occupancy)
    requires Shift(above.Keys, r) == f && RowsBelow(above, r)
    ensures RowCols(above.Keys, r) == RowCols(f, 0)
    ensures var m := PlaceSources(above, r, row, 0, RowCols(f, 0), 0);
      && Shift(m.Keys, r + 1) == Advance(f, row)
      && RowsBelow(m, r + 1)
      && RowMarked(m, r, row, Starts(row, RowCols(f, 0), 0), |row|)
      && RowCols(m.Keys, r) == RowCols(Land(f, row), 0)
  {
    hide Starts, PlaceSources, PlaceRow, Shift, RowMarked, RowsBelow, RowCols, AgreeFrom;
    var inh := RowCols(f, 0);
    InitialCols(above.Keys, r);
    var starts := Starts(row, inh, 0);
    assert row[0..] == row && starts[0..] == starts;
    MarkedFromBelow(above, r, row, starts);
    PlaceSourcesMarks(above, r, row, 0, inh, 0, starts);
    var m := PlaceSources(above, r, row, 0, inh, 0);
    ShiftShift(m.Keys, r, 1);
    InitialCols(m.Keys, r);
    BelowOnceMarked(m, r, row, starts);
  }

  lemma MarkedFromBelow(above: Sources, r: nat, row: Row, starts: seq<nat>)
    requires |row| == |starts| && RowsBelow(above, r)
    ensures RowMarked(above, r, row, starts, 0)
  {
  }

  lemma BelowOnceMarked(m: Sources, r: nat, row: Row, starts: seq<nat>)
    requires |row| == |starts| && RowMarked(m, r, row, starts, |row|)
    ensures RowsBelow(m, r + 1)
  {
  }

  // The markers of row t: its columns are those the forward scan finds occupied,
  // an own block carries its own marker, an inherited column an earlier row's.
  lemma VisualSourcesAgree(rows: seq<Row>, t: nat, init: Occupancy)
    requires t < |rows|
    ensures var m, starts := VisualSources(rows, t, init), RowStarts(rows, t, init);
      && m.Keys == OccupiedCols(rows, t, init)
      && (forall k: nat, c: nat {:trigger TakesColumn(starts[k], rows[t][k], c)} ::
            k < |starts| && TakesColumn(starts[k], rows[t][k], c) ==> c in m && m[c] == Marker(t, k))
      && (forall c {:trigger m[c]} :: c in m && m[c].row >= t ==>
            && m[c].row == t && m[c].cell < |starts|
            && TakesColumn(starts[m[c].cell], rows[t][m[c].cell], c))
  {
    SourcesMarks(rows, t + 1, init);
  }

  method ScanRowVisualSources(rows: seq<Row>, targetRowIndex: int, initialOccupied: Occupancy)
    returns (target: map<nat, Marker>, totalCols: nat)
    ensures var t := ResolveIndex(targetRowIndex, |rows|);
      if 0 <= t < |rows|
      then target == VisualSources(rows, t, initialOccupied) && totalCols == TotalCols(rows[..t + 1], initialOccupied)
      else target == map[] && totalCols == 0
  {
    hide RowCols, TotalCols, Shift, End, PlaceSources, NextFree, Stamp;
    var t := ResolveIndex(targetRowIndex, |rows|);
    if !(0 <= t < |rows|) {
      return map[], 0;
    }
    var sources := InitialSources(initialOccupied);
    totalCols := WidthOf(AllCols(initialOccupied));
    EmptyTotal(initialOccupied);
    assert rows[..0] == [];
    for r := 0 to t + 1
      invariant sources == SourcesAbove(rows, r, initialOccupied)
      invariant totalCols == TotalCols(rows[..r], initialOccupied)
    {
      var above := sources;
      ghost var total0 := totalCols;
      SourcesMarks(rows, r, initialOccupied);
      InitialCols(above.Keys, r);
      CarrySnoc(rows, r, initialOccupied);
      sources, totalCols := PlaceRowSources(rows[r], above, r, totalCols);
    }
    target := RowOf(sources, t);
  }

  lemma EmptyTotal(f: Occupancy)
    ensures TotalCols([], f) == WidthOf(AllCols(f))
  {
  }

  lemma PlaceSourcesStep(sources: Sources, r: nat, row: Row, k: nat, inh: set<nat>, c: nat, occupiedNow: set<nat>)
    requires k < |row|
    requires occupiedNow == RowCols(sources.Keys, r) && AgreeFrom(occupiedNow, inh, c)
    ensures var f := NextFree(inh, c);
      var next := Stamp(sources, r, f, row[k], Marker(r, k));
      && NextFree(occupiedNow, c) == f
      && PlaceSources(sources, r, row, k, inh, c) == PlaceSources(next, r, row, k + 1, inh, f + row[k].colspan)
      && AgreeFrom(RowCols(next.Keys, r), inh, f + row[k].colspan)
      && End(row[k..], inh, c) == End(row[k + 1..], inh, f + row[k].colspan)
  {
    hide NextFree;
    NextFreeAgree(occupiedNow, inh, c);
    assert row[k..][0] == row[k] && row[k..][1..] == row[k + 1..];
  }

  method PlaceRowSources(row: Row, above: Sources, r: nat, totalCols0: nat)
    returns (sources: Sources, totalCols: nat)
    ensures sources == PlaceSources(above, r, row, 0, RowCols(above.Keys, r), 0)
    ensures totalCols == Max(totalCols0, End(row, RowCols(above.Keys, r), 0))
  {
    hide RowCols, AgreeFrom, Stamp, NextFree, BlockAt, End, PlaceSources;
    ghost var inh := RowCols(above.Keys, r);
    InitialCols(above.Keys, r);
    var colIdx: nat := 0;
    sources, totalCols := above, totalCols0;
    assert row[0..] == row;
    for k := 0 to |row|
      invariant AgreeFrom(RowCols(sources.Keys, r), inh, colIdx)
      invariant PlaceSources(sources, r, row, k, inh, colIdx) == PlaceSources(above, r, row, 0, inh, 0)
      invariant End(row[k..], inh, colIdx) == End(row, inh, 0)
      invariant totalCols == Max(totalCols0, colIdx)
    {
      PlaceSourcesStep(sources, r, row, k, inh, colIdx, RowCols(sources.Keys, r));
      var start := FirstFreeColumn(sources.Keys, r, colIdx);
      var next := StampSource(sources, r, start, row[k], Marker(r, k));
      sources := next;
      colIdx := start + row[k].colspan;
      totalCols := Max(totalCols, colIdx);
    }
    assert row[|row|..] == [];
    NothingLeft(sources, r, row, inh, colIdx);
  }

  lemma NothingLeft(sources: Sources, r: nat, row: Row, inh: set<nat>, c: nat)
    ensures PlaceSources(sources, r, row, |row|, inh, c) == sources && End([], inh, c) == c
  {
  }

  method StampSource(sources: Sources, r: nat, c: nat, cell: Cell, marker: Marker) returns (result: Sources)
    ensures result == Stamp(sources, r, c, cell, marker)
  {
    result := sources;
    for i := 0 to cell.rowspan
      invariant forall s {:trigger s in result} :: s in result <==>
        s in sources || (r <= s.row < r + i && c <= s.col < c + cell.colspan)
      invariant forall s {:trigger result[s]} :: s in result ==> (result[s] ==
        if r <= s.row < r + i && c <= s.col < c + cell.colspan then marker else sources[s])
    {
      for j := c to c + cell.colspan
        invariant forall s {:trigger s in result} :: s in result <==>
          s in sources || (r <= s.row < r + i && c <= s.col < c + cell.colspan) || (s.row == r + i && c <= s.col < j)
        invariant forall s {:trigger result[s]} :: s in result ==> (result[s] ==
          if (r <= s.row < r + i && c <= s.col < c + cell.colspan) || (s.row == r + i && c <= s.col < j)
          then marker else sources[s])
      {
        result := result[Slot(r + i, j) := marker];
      }
    }
  }

  // ------------------------------------------- explicit cell -> column

  // The column cursor c stands past cell k - 1, and the scan goes on from it.
  ghost predicate CursorAt(rows: seq<Row>, t: nat, init: Occupancy, k: nat, c: nat)
    requires t < |rows| && k <= |rows[t]|
  {
    var starts := RowStarts(rows, t, init);
    && starts[k..] == Starts(rows[t][k..], Inherited(rows, t, init), c)
    && forall j: nat {:trigger starts[j]} :: j < k ==> starts[j] + rows[t][j].colspan <= c
  }

  lemma CursorStep(rows: seq<Row>, t: nat, init: Occupancy, k: nat, c: nat)
    requires t < |rows| && k < |rows[t]|
    requires CursorAt(rows, t, init, k, c)
    ensures var f := RowStarts(rows, t, init)[k];
      && f == NextFree(Inherited(rows, t, init), c)
      && CursorAt(rows, t, init, k + 1, f + rows[t][k].colspan)
  {
    hide NextFree, Inherited, Block, PlaceRow, Starts;
    StartsStep(rows[t], Inherited(rows, t, init), k, c, RowStarts(rows, t, init));
  }

  lemma MappingStep(rows: seq<Row>, t: nat, init: Occupancy, k: nat, c: nat)
    requires t < |rows| && k < |rows[t]|
    requires CursorAt(rows, t, init, k, c)
    ensures CursorAt(rows, t, init, k + 1, RowStarts(rows, t, init)[k] + rows[t][k].colspan)
    ensures var f := RowStarts(rows, t, init)[k];
      && c <= f
      && !(f in VisualSources(rows, t, init) && VisualSources(rows, t, init)[f].row < t)
      && forall x: nat {:trigger x in VisualSources(rows, t, init)} :: c <= x < f ==>
           x in VisualSources(rows, t, init) && VisualSources(rows, t, init)[x].row < t
  {
    var row, inh := rows[t], Inherited(rows, t, init);
    var starts, m := RowStarts(rows, t, init), VisualSources(rows, t, init);
    var f := starts[k];
    CursorStep(rows, t, init, k, c);
    VisualSourcesAgree(rows, t, init);
    if f in m && m[f].row < t {
      PlaceRowMembers(row, inh, 0, Slot(0, f));
      var j :| 0 <= j < |row| && Slot(0, f) in Block(starts[j], row[j]);
      assert TakesColumn(starts[j], row[j], f);
      assert false;
    }
    forall x: nat | c <= x < f ensures x in m && m[x].row < t {
      assert x in inh;
      if m[x].row >= t {
        var j := m[x].cell;
        assert TakesColumn(starts[j], row[j], x);
        CoveredEarlier(row, inh, j, k, x);
        assert false;
      }
    }
  }

  // A column left of a cell's start is covered by earlier cells only.
  lemma CoveredEarlier(row: Row, inh: set<nat>, j: nat, k: nat, x: nat)
    requires j < |row| && k < |row| && TakesColumn(Starts(row, inh, 0)[j], row[j], x) && x < Starts(row, inh, 0)[k]
    ensures j < k
  {
    StartsSorted(row, inh, 0);
  }

  lemma CursorInit(rows: seq<Row>, t: nat, init: Occupancy)
    requires t < |rows|
    ensures CursorAt(rows, t, init, 0, 0)
  {
    var starts := RowStarts(rows, t, init);
    assert rows[t][0..] == rows[t] && starts[0..] == starts;
  }

  method BuildVisualColMapping(rows: seq<Row>, targetRowIndex: int, initialOccupied: Occupancy)
    returns (mapping: seq<nat>)
    ensures var t := ResolveIndex(targetRowIndex, |rows|);
      mapping == if 0 <= t < |rows| then RowStarts(rows, t, initialOccupied) else []
  {
    hide Starts, VisualSources, Inherited, RowStarts, CursorAt;
    var t := ResolveIndex(targetRowIndex, |rows|);
    if !(0 <= t < |rows|) {
      return [];
    }
    var target, _ := ScanRowVisualSources(rows, targetRowIndex, initialOccupied);
    ghost var starts := RowStarts(rows, t, initialOccupied);
    var row := rows[t];
    var colIdx: nat := 0;
    mapping := [];
    CursorInit(rows, t, initialOccupied);
    for k := 0 to |row|
      invariant mapping == starts[..k]
      invariant CursorAt(rows, t, initialOccupied, k, colIdx)
    {
      MappingStep(rows, t, initialOccupied, k, colIdx);
      ghost var from := colIdx;
      while colIdx in target && target[colIdx].row < t
        invariant from <= colIdx <= starts[k]
        decreases starts[k] - colIdx
      {
        colIdx := colIdx + 1;
      }
      mapping := mapping + [colIdx];
      colIdx := colIdx + row[k].colspan;
    }
  }

  // -------------------------------------------------- rendered segments

  // The maximal runs of one source among columns 0..n.
  function Runs(m: map<nat, Marker>, n: nat): seq<Segment>
  {
    if n == 0 then [] else
      var before := Runs(m, n - 1);
      if n - 1 !in m then before
      else if before != [] && before[|before| - 1].endCol == n - 1 && before[|before| - 1].source == m[n - 1]
      then before[..|before| - 1] + [before[|before| - 1].(endCol := n)]
      else before + [Segment(m[n - 1], n - 1, n)]
  }

  predicate Within(segment: Segment, c: nat)
  {
    segment.startCol <= c < segment.endCol
  }

  ghost predicate InSegments(segments: seq<Segment>, c: nat)
  {
    exists i :: 0 <= i < |segments| && Within(segments[i], c)
  }

  // Non-empty, sorted and disjoint; adjoining segments differ in their source.
  ghost predicate Ordered(segments: seq<Segment>, n: nat)
  {
    && (forall i {:trigger segments[i]} :: 0 <= i < |segments| ==> segments[i].startCol < segments[i].endCol <= n)
    && (forall i, j {:trigger segments[i], segments[j]} :: 0 <= i < j < |segments| ==>
          segments[i].endCol <= segments[j].startCol)
    && (forall i, j {:trigger segments[i], segments[j]} ::
          0 <= i && j == i + 1 < |segments| && segments[i].endCol == segments[j].startCol ==>
          segments[i].source != segments[j].source)
  }

  // The columns covered are exactly those of `m` below n, each by a segment of its source.
  ghost predicate Paints(segments: seq<Segment>, m: map<nat, Marker>, n: nat)
  {
    && (forall i, c: nat {:trigger Within(segments[i], c)} :: 0 <= i < |segments| && Within(segments[i], c) ==>
          c < n && c in m && m[c] == segments[i].source)
    && (forall c: nat {:trigger InSegments(segments, c)} :: c < n && c in m ==> InSegments(segments, c))
  }

  ghost predicate Renders(segments: seq<Segment>, m: map<nat, Marker>, n: nat)
  {
    Ordered(segments, n) && Paints(segments, m, n)
  }

  lemma PaintsExtend(before: seq<Segment>, m: map<nat, Marker>, n: nat)
    requires n > 0 && n - 1 in m && Paints(before, m, n - 1)
    requires before != [] && before[|before| - 1].endCol == n - 1 && before[|before| - 1].source == m[n - 1]
    requires Ordered(before, n - 1)
    ensures Paints(before[..|before| - 1] + [before[|before| - 1].(endCol := n)], m, n)
  {
    var last := |before| - 1;
    var after := before[..last] + [before[last].(endCol := n)];
    forall i, c: nat | 0 <= i < |after| && Within(after[i], c) ensures c < n && c in m && m[c] == after[i].source {
      if c < n - 1 || i < last {
        assert Within(before[i], c);
      }
    }
    forall c: nat | c < n && c in m ensures InSegments(after, c) {
      if c == n - 1 {
        assert Within(after[last], c);
      } else {
        assert InSegments(before, c);
        var i :| 0 <= i < |before| && Within(before[i], c);
        assert Within(after[i], c);
      }
    }
  }

  lemma PaintsAppend(before: seq<Segment>, m: map<nat, Marker>, n: nat)
    requires n > 0 && n - 1 in m && Paints(before, m, n - 1)
    ensures Paints(before + [Segment(m[n - 1], n - 1, n)], m, n)
  {
    var after := before + [Segment(m[n - 1], n - 1, n)];
    forall i, c: nat | 0 <= i < |after| && Within(after[i], c) ensures c < n && c in m && m[c] == after[i].source {
      if i < |before| {
        assert Within(before[i], c);
      }
    }
    forall c: nat | c < n && c in m ensures InSegments(after, c) {
      if c == n - 1 {
        assert Within(after[|before|], c);
      } else {
        assert InSegments(before, c);
        var i :| 0 <= i < |before| && Within(before[i], c);
        assert Within(after[i], c);
      }
    }
  }

  lemma OrderedStep(before: seq<Segment>, m: map<nat, Marker>, n: nat)
    requires n > 0 && n - 1 in m && Ordered(before, n - 1)
    ensures before != [] && before[|before| - 1].endCol == n - 1 ==>
      Ordered(before[..|before| - 1] + [before[|before| - 1].(endCol := n)], n)
    ensures before == [] || before[|before| - 1].endCol != n - 1 || before[|before| - 1].source != m[n - 1] ==>
      Ordered(before + [Segment(m[n - 1], n - 1, n)], n)
  {
  }

  lemma RendersGap(before: seq<Segment>, m: map<nat, Marker>, n: nat)
    requires n > 0 && n - 1 !in m && Renders(before, m, n - 1)
    ensures Renders(before, m, n)
  {
  }

  lemma {:induction false} RunsRender(m: map<nat, Marker>, n: nat)
    ensures Renders(Runs(m, n), m, n)
  {
    if n > 0 {
      RunsRender(m, n - 1);
      var before := Runs(m, n - 1);
      hide Paints, Ordered;
      if n - 1 !in m {
        RendersGap(before, m, n);
      } else {
        OrderedStep(before, m, n);
        if before != [] && before[|before| - 1].endCol == n - 1 && before[|before| - 1].source == m[n - 1] {
          PaintsExtend(before, m, n);
        } else {
          PaintsAppend(before, m, n);
        }
      }
    }
  }

  lemma RunsLast(m: map<nat, Marker>, n: nat)
    ensures var runs := Runs(m, n);
      if n > 0 && n - 1 in m
      then runs != [] && runs[|runs| - 1].endCol == n && runs[|runs| - 1].source == m[n - 1]
      else runs == [] || runs[|runs| - 1].endCol < n
  {
    RunsRender(m, n);
    var runs := Runs(m, n);
    if runs != [] && runs[|runs| - 1].endCol == n {
      assert Within(runs[|runs| - 1], n - 1);
    }
  }

  // One segment more exactly when a column shows another source than its left neighbour.
  lemma {:induction false} RunsStepCount(m: map<nat, Marker>, n: nat)
    requires n > 0
    ensures |Runs(m, n)| == |Runs(m, n - 1)| +
      (if n - 1 in m && !(n - 2 in m && m[n - 2] == m[n - 1]) then 1 else 0)
  {
    RunsLast(m, n - 1);
  }

  method BuildRowRenderedCellSegments(rows: seq<Row>, targetRowIndex: int, initialOccupied: Occupancy)
    returns (segments: seq<Segment>)
    ensures var t := ResolveIndex(targetRowIndex, |rows|);
      segments == if 0 <= t < |rows|
        then Runs(VisualSources(rows, t, initialOccupied), TotalCols(rows[..t + 1], initialOccupied)) else []
  {
    hide VisualSources, TotalCols;
    var t := ResolveIndex(targetRowIndex, |rows|);
    if !(0 <= t < |rows|) {
      return [];
    }
    var target, totalCols := ScanRowVisualSources(rows, targetRowIndex, initialOccupied);
    if totalCols == 0 {
      return [];
    }
    segments := [];
    var current: Option<Marker> := None;
    var currentStart := 0;
    for col := 0 to totalCols
      invariant currentStart <= col
      invariant Runs(target, col) ==
        segments + (if current.Some? then [Segment(current.value, currentStart, col)] else [])
      invariant current.Some? ==> currentStart < col && col - 1 in target && current.value == target[col - 1]
      invariant current.None? ==> col == 0 || col - 1 !in target
    {
      RunsLast(target, col);
      if col !in target {
        if current.Some? {
          segments := segments + [Segment(current.value, currentStart, col)];
        }
        current := None;
      } else if current != Some(target[col]) {
        if current.Some? {
          segments := segments + [Segment(current.value, currentStart, col)];
        }
        current := Some(target[col]);
        currentStart := col;
      }
    }
    if current.Some? {
      segments := segments + [Segment(current.value, currentStart, totalCols)];
    }
  }

  method CalculateRowRenderedSegments(rows: seq<Row>, targetRowIndex: int) returns (count: nat)
    ensures var t := ResolveIndex(targetRowIndex, |rows|);
      count == if 0 <= t < |rows| then |Runs(VisualSources(rows, t, {}), TotalCols(rows[..t + 1], {}))| else 0
  {
    hide VisualSources, TotalCols, Runs;
    var target, totalCols := ScanRowVisualSources(rows, targetRowIndex, {});
    RunsZero(target);
    if totalCols == 0 {
      return 0;
    }
    count := 0;
    var previous: Option<Marker> := None;
    for col := 0 to totalCols
      invariant count == |Runs(target, col)|
      invariant previous == if col > 0 && col - 1 in target then Some(target[col - 1]) else None
    {
      RunsStepCount(target, col + 1);
      if col !in target {
        previous := None;
      } else if previous != Some(target[col]) {
        count := count + 1;
        previous := Some(target[col]);
      }
    }
  }

  lemma RunsZero(m: map<nat, Marker>)
    ensures Runs(m, 0) == []
  {
  }

  // The rendered segments of a row cover exactly the columns the scan finds
  // occupied, all of which lie below the scanned width.
  lemma SegmentsCoverOccupied(rows: seq<Row>, t: nat, init: Occupancy)
    requires t < |rows|
    ensures var m, n := VisualSources(rows, t, init), TotalCols(rows[..t + 1], init);
      && Renders(Runs(m, n), m, n)
      && forall c: nat {:trigger InSegments(Runs(m, n), c)} ::
           InSegments(Runs(m, n), c) <==> c in OccupiedCols(rows, t, init)
  {
    var m, n := VisualSources(rows, t, init), TotalCols(rows[..t + 1], init);
    RunsRender(m, n);
    VisualSourcesAgree(rows, t, init);
    OccupiedWithinTotal(rows, t, init);
    forall c: nat ensures InSegments(Runs(m, n), c) <==> c in OccupiedCols(rows, t, init) {
      if InSegments(Runs(m, n), c) {
        var i :| 0 <= i < |Runs(m, n)| && Within(Runs(m, n)[i], c);
      }
    }
  }

  lemma OccupiedWithinTotal(rows: seq<Row>, t: nat, init: Occupancy)
    requires t < |rows|
    ensures forall c {:trigger c in OccupiedCols(rows, t, init)} ::
      c in OccupiedCols(rows, t, init) ==> c < TotalCols(rows[..t + 1], init)
  {
    var f := Carry(rows[..t], init);
    assert rows[..t + 1] == rows[..t] + [rows[t]];
    ScanComposes(rows[..t], [rows[t]], init, 0);
    assert RowsWidth([rows[t]], f) >= Metric(rows[t], f, 0).effectiveCols;
  }
}
