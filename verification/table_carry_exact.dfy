/**
 When sinking the placeholders and deleting their row keeps the layout: exactly when no
 rowspan is open from above and the row below tiles its columns. When that row overlaps an
 inherited column or leaves a hole left of one, the widths disagree; when a rowspan is open,
 the areas do.
 */
module TableCarryExact {
  import opened TableGrid
  import opened TableLayout
  import opened TableCarry
  import opened TableCarryLayout
  import opened TableArea

  lemma InsertTall(row: Row, i: nat, cell: Cell)
    requires i <= |row| && Tall(row) && cell.rowspan >= 1
    ensures Tall(InsertAt(row, i, cell))
  {
  }

  lemma {:induction false} InsertAllTall(rows: seq<Row>, t: nat, moves: seq<Move>)
    requires t < |rows| && forall m :: m in moves ==> m.row == t && m.cell.rowspan >= 1
    requires Tall(rows[t])
    ensures Tall(InsertAll(rows, moves)[t])
    decreases |moves|
  {
    hide Tall;
    if moves != [] {
      var m := moves[0];
      InsertTall(rows[t], InsertIndex(RowStarts(rows, t, {}), m.start), m.cell);
      InsertAllTall(InsertBefore(rows, t, m.start, m.cell), t, moves[1..]);
    }
  }

  lemma SunkTall(rows: seq<Row>, h: nat)
    requires h + 1 < |rows| && Tall(rows[h + 1])
    ensures Tall(SunkRow(rows, h))
  {
    var t := h + 1;
    var starts := RowStarts(rows, h, {});
    var k := CarriedCells(rows[h], starts, t);
    hide CarriedCells, RowStarts, Tall, SortMoves, InsertAll;
    forall m | m in SortMoves(k) ensures m.row == t && m.cell.rowspan >= 1 {
      assert m in multiset(SortMoves(k));
      CarriedMembers(rows[h], starts, t, m);
    }
    InsertAllTall(rows, t, SortMoves(k));
  }

  // ------------------------------------------------------ the equivalence

  lemma FilledTiles(row: Row, inh: set<nat>, w: nat)
    requires Tall(row)
    requires inh + RowCols(PlaceRow(row, inh, 0), 0) == Interval(0, w)
    requires inh !! RowCols(PlaceRow(row, inh, 0), 0)
    ensures Tiles(row, inh)
  {
    var starts := Starts(row, inh, 0);
    var e := RowCols(PlaceRow(row, inh, 0), 0);
    forall k, c: nat | 0 <= k < |row| && Spans(starts[k], row[k], c) ensures c !in inh {
      PlaceRowMembers(row, inh, 0, Slot(0, c));
      assert Slot(0, c) in Block(starts[k], row[k]);
      assert c in e;
    }
    forall c: nat, d: nat | c < d && d in inh && c !in inh ensures Spanned(row, starts, c) {
      assert d in Interval(0, w) && c in Interval(0, w);
      assert c in e;
      PlaceRowMembers(row, inh, 0, Slot(0, c));
      var k :| 0 <= k < |row| && Slot(0, c) in Block(starts[k], row[k]);
      assert Spans(starts[k], row[k], c);
    }
  }

  // One row takes the slots that two rows took below what is open from above, and lies over
  // nothing that is open.
  ghost predicate StandsIn(f: Occupancy, upper: Row, lower: Row, sunk: Row) {
    && Land(f, sunk) == Land(Advance(f, upper), lower)
    && NoOverlap(sunk, RowCols(f, 0))
  }

  lemma PlacedBeside(f: Occupancy, row: Row)
    requires Hanging(f) && NoOverlap(row, RowCols(f, 0))
    ensures |Land(f, row)| == |f| + Area(row)
  {
    var inh := RowCols(f, 0);
    var starts := Starts(row, inh, 0);
    forall s | s in f ensures s !in PlaceRow(row, inh, 0) {
      TopIsOpen(f, s);
      PlaceRowMembers(row, inh, 0, s);
      if k :| 0 <= k < |row| && s in Block(starts[k], row[k]) {
        assert Spans(starts[k], row[k], s.col);
      }
    }
    PlacedArea(row, inh, 0);
  }

  // The two rows take no more than the open rowspans, one row less far down, the placeholders
  // and the lower row fill, and less if the lower row lies over anything.
  lemma TwoRowsArea(f: Occupancy, upper: Row, lower: Row, starts: seq<nat>, t: nat)
    requires |upper| == |starts| && !RowHasSemanticContent(upper)
    ensures var below := Advance(f, upper);
      && |Land(below, lower)| <= |Shift(f, 1)| + TotalArea(CarriedCells(upper, starts, t)) + Area(lower)
      && (|Land(below, lower)| == |Shift(f, 1)| + TotalArea(CarriedCells(upper, starts, t)) + Area(lower) ==>
            below !! PlaceRow(lower, RowCols(below, 0), 0))
  {
    hide PlaceRow, RowCols, TotalArea, CarriedCells, RowHasSemanticContent, Area;
    var inh := RowCols(f, 0);
    BelowArea(upper, inh, 0, starts, t);
    BelowUnion(f, PlaceRow(upper, inh, 0));
    var below := Advance(f, upper);
    PlacedArea(lower, RowCols(below, 0), 0);
    UnionSize(below, PlaceRow(lower, RowCols(below, 0), 0));
  }

  // Equal slots are equal areas: the open rowspans reach one row less far below the deleted
  // row than they should, so there are none, and nothing overlaps.
  lemma NothingIsOpen(f: Occupancy, rows: seq<Row>, h: nat)
    requires h + 1 < |rows| && Hanging(f) && !RowHasSemanticContent(rows[h])
    requires StandsIn(f, rows[h], rows[h + 1], SunkRow(rows, h))
    ensures f == {}
    ensures var below := Advance(f, rows[h]); below !! PlaceRow(rows[h + 1], RowCols(below, 0), 0)
  {
    hide Land, Advance, Area, TotalArea, RowCols, Hanging, RowHasSemanticContent, CarriedCells, RowStarts, NoOverlap;
    hide PlaceRow;
    SunkArea(rows, h);
    PlacedBeside(f, SunkRow(rows, h));
    TwoRowsArea(f, rows[h], rows[h + 1], RowStarts(rows, h, {}), h + 1);
    FirstRowAside(f);
    assert RowCols(f, 0) == {};
    if s :| s in f {
      TopIsOpen(f, s);
      assert false;
    }
  }

  lemma FirstRowFilled(row: Row)
    requires Tall(row)
    ensures RowCols(Land({}, row), 0) == Interval(0, End(row, {}, 0))
  {
    hide PlaceRow, Interval;
    assert RowCols({}, 0) == {};
    NothingFree(row, {}, 0);
    PlaceRowBelowEnd(row, {}, 0);
  }

  lemma SameSlotsTile(rows: seq<Row>, h: nat)
    requires h + 1 < |rows| && Carry(rows[..h], {}) == {} && !RowHasSemanticContent(rows[h]) && Tall(rows[h + 1])
    requires StandsIn({}, rows[h], rows[h + 1], SunkRow(rows, h))
    ensures Tiles(rows[h + 1], Inherited(rows, h + 1, {}))
  {
    var sunk, below := SunkRow(rows, h), Advance({}, rows[h]);
    hide SunkRow, Tall, RowHasSemanticContent, PlaceRow, Interval, NoOverlap, Land;
    assert Hanging({});
    NothingIsOpen({}, rows, h);
    CarrySnoc(rows, h, {});
    assert RowCols(below, 0) == Inherited(rows, h + 1, {});
    hide Carry, Advance, Inherited;
    SunkTall(rows, h);
    FirstRowFilled(sunk);
    LandCols(below, rows[h + 1]);
    FilledTiles(rows[h + 1], RowCols(below, 0), End(sunk, {}, 0));
  }

  lemma LandCols(f: Occupancy, row: Row)
    ensures RowCols(Land(f, row), 0) == RowCols(f, 0) + RowCols(PlaceRow(row, RowCols(f, 0), 0), 0)
  {
    hide PlaceRow;
  }

  // Sinking the placeholders of an emptied row and deleting it keeps the slots of the row
  // below exactly when nothing is open from above and that row tiles its columns.
  lemma SinkingIsExact(f: Occupancy, rows: seq<Row>, h: nat)
    requires h + 1 < |rows| && Carry(rows[..h], {}) == {} && !RowHasSemanticContent(rows[h])
    requires Wide(rows[h]) && Wide(rows[h + 1]) && Tall(rows[h + 1]) && Hanging(f)
    ensures StandsIn(f, rows[h], rows[h + 1], SunkRow(rows, h)) <==>
      f == {} && Tiles(rows[h + 1], Inherited(rows, h + 1, {}))
  {
    hide Land, Advance, Tiles, Inherited, Carry, RowHasSemanticContent, SunkRow, Hanging;
    if StandsIn(f, rows[h], rows[h + 1], SunkRow(rows, h)) {
      NothingIsOpen(f, rows, h);
      SameSlotsTile(rows, h);
    } else if f == {} {
      assert RowCols(f, 0) == {};
      if Tiles(rows[h + 1], Inherited(rows, h + 1, {})) {
        SinkingKeepsRow(rows, h);
        assert false;
      }
    }
  }

  lemma SlotsDiffer(rows: seq<Row>, h: nat)
    requires h + 1 < |rows| && Carry(rows[..h], {}) == {} && !RowHasSemanticContent(rows[h])
    requires Wide(rows[h]) && Wide(rows[h + 1]) && Tall(rows[h + 1])
    requires !Tiles(rows[h + 1], Inherited(rows, h + 1, {}))
    ensures Land({}, SunkRow(rows, h)) != Land(Advance({}, rows[h]), rows[h + 1])
  {
    hide Tiles, Land, Inherited, RowHasSemanticContent, Carry, SunkRow, Advance;
    assert Hanging({}) && RowCols({}, 0) == {};
    SinkingIsExact({}, rows, h);
  }

  // A placeholder spanning two rows over a row whose one cell overlaps it: sinking it does not
  // keep the slots.
  lemma SinkingCanMoveCells()
    ensures var rows := [[Cell(1, 1, []), Cell(1, 2, [])], [Cell(2, 1, [])]];
      && !Tiles(rows[1], Inherited(rows, 1, {}))
      && Land({}, SunkRow(rows, 0)) != Land(Advance({}, rows[0]), rows[1])
  {
    var upper, lower := [Cell(1, 1, []), Cell(1, 2, [])], [Cell(2, 1, [])];
    var rows := [upper, lower];
    WideCellOverlaps(lower);
    PlaceholderIsOpen(upper, lower);
    hide Tiles, Land, Inherited, RowHasSemanticContent, Carry, SunkRow, Advance;
    SlotsDiffer(rows, 0);
  }

  lemma PlaceholderIsOpen(upper: Row, lower: Row)
    requires upper == [Cell(1, 1, []), Cell(1, 2, [])]
    ensures var rows := [upper, lower];
      Inherited(rows, 1, {}) == {1} && Carry(rows[..0], {}) == {} && !RowHasSemanticContent(upper)
  {
    var rows := [upper, lower];
    OpenBelow(upper);
    assert rows[..1] == [upper] && [upper][1..] == [] && rows[..0] == [];
    hide Advance;
    assert Carry(rows[..1], {}) == Advance({}, upper);
  }

  lemma WideCellOverlaps(lower: Row)
    requires lower == [Cell(2, 1, [])]
    ensures !Tiles(lower, {1})
  {
    assert NextFree({1}, 0) == 0 && Starts(lower, {1}, 0)[0] == 0;
    assert Spans(Starts(lower, {1}, 0)[0], lower[0], 1);
  }

  lemma OpenBelow(upper: Row)
    requires upper == [Cell(1, 1, []), Cell(1, 2, [])]
    ensures RowCols(Advance({}, upper), 0) == {1}
  {
    assert upper[1..] == [Cell(1, 2, [])] && upper[1..][1..] == [];
    assert RowCols({}, 0) == {} && NextFree({}, 0) == 0 && NextFree({}, 1) == 1;
    assert PlaceRow(upper[1..], {}, 1) == Block(1, upper[1]) + PlaceRow([], {}, 2);
    assert PlaceRow(upper, {}, 0) == Block(0, upper[0]) + PlaceRow(upper[1..], {}, 1);
    NothingAt({}, 2);
    hide PlaceRow;
    forall c ensures Slot(1, c) in Land({}, upper) <==> c == 1 {
    }
  }

  // A single cell below the emptied one tiles its row, and one column is open for one more row:
  // the cell moves from column 0 to column 1.
  lemma OpenRowspanMovesCells()
    ensures var f, row := {Slot(0, 0)}, [Cell(1, 1, [])];
      && Hanging(f) && Tiles(row, Inherited([row, row], 1, {}))
      && Starts(row, RowCols(Advance(f, row), 0), 0) == [0]
      && Starts(SunkRow([row, row], 0), RowCols(f, 0), 0) == [1]
      && !StandsIn(f, row, row, SunkRow([row, row], 0))
  {
    var f, row := {Slot(0, 0)}, [Cell(1, 1, [])];
    StartsUnderOpen(row);
    NothingSinks(row, row);
    NothingInherited(row, row);
    assert Hanging(f);
    assert Tiles(row, {});
    hide Tiles, Land, Inherited, RowHasSemanticContent, Carry, SunkRow, Hanging, StandsIn, Advance, Starts, RowCols;
    SinkingIsExact(f, [row, row], 0);
  }

  // A wider cell comes to lie over the open column instead: the slots agree, the cells do not.
  lemma OverlapHidesStretch()
    ensures var f, upper, lower := {Slot(0, 1)}, [Cell(1, 1, [])], [Cell(2, 1, [])];
      var sunk := SunkRow([upper, lower], 0);
      && Land(f, sunk) == Land(Advance(f, upper), lower)
      && !NoOverlap(sunk, RowCols(f, 0))
  {
    var f, upper, lower := {Slot(0, 1)}, [Cell(1, 1, [])], [Cell(2, 1, [])];
    NothingSinks(upper, lower);
    assert RowCols(f, 0) == {1};
    SingleRow(upper[0], {1});
    SingleRow(lower[0], {1});
    SingleRow(lower[0], {});
    hide PlaceRow;
    assert RowCols(Advance(f, upper), 0) == {};
    assert Spans(Starts(lower, {1}, 0)[0], lower[0], 1);
  }

  lemma SingleRow(cell: Cell, inh: set<nat>)
    requires 0 !in inh
    ensures Starts([cell], inh, 0) == [0] && PlaceRow([cell], inh, 0) == Block(0, cell)
  {
    assert NextFree(inh, 0) == 0 && [cell][1..] == [];
    NothingAt(inh, cell.colspan);
  }

  lemma StartsUnderOpen(row: Row)
    requires row == [Cell(1, 1, [])]
    ensures var f := {Slot(0, 0)};
      Starts(row, RowCols(Advance(f, row), 0), 0) == [0] && Starts(row, RowCols(f, 0), 0) == [1]
  {
    var f := {Slot(0, 0)};
    assert RowCols(f, 0) == {0} && NextFree({0}, 0) == 1 && NextFree({}, 0) == 0;
    assert row[1..] == [];
    assert PlaceRow(row, {0}, 0) == Block(1, row[0]) + PlaceRow([], {0}, 2);
    NothingAt({0}, 2);
    assert RowCols(Advance(f, row), 0) == {};
  }

  lemma NothingSinks(upper: Row, lower: Row)
    requires upper == [Cell(1, 1, [])]
    ensures SunkRow([upper, lower], 0) == lower && !RowHasSemanticContent(upper)
  {
    assert CarriedCells(upper, RowStarts([upper, lower], 0, {}), 1) == [];
  }

  lemma NothingInherited(upper: Row, lower: Row)
    requires upper == [Cell(1, 1, [])]
    ensures Inherited([upper, lower], 1, {}) == {} && Carry([upper, lower][..0], {}) == {}
  {
    assert [upper, lower][..1] == [upper] && [upper][1..] == [];
    assert RowCols({}, 0) == {};
    SingleRow(upper[0], {});
    hide PlaceRow;
    assert Carry([upper], {}) == Advance({}, upper);
    assert RowCols(Advance({}, upper), 0) == {};
  }

  lemma NothingAt(inh: set<nat>, c: nat)
    ensures PlaceRow([], inh, c) == {}
  {
  }
}
