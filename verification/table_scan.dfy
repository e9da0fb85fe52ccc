/**
 What a scan finds, cell by cell: which slots are taken and by which cell, how wide the rows and
 the table are, and which row is the last one with cells.
 */
module TableScan {
  import opened Wrappers
  import opened TableGrid
  import opened TableLayout

  // Cell k of row j takes column c of row t.
  ghost predicate TakesSlot(rows: seq<Row>, init: Occupancy, j: nat, k: nat, t: nat, c: nat) {
    && j < |rows| && k < |rows[j]| && j <= t < j + rows[j][k].rowspan
    && RowStarts(rows, j, init)[k] <= c < RowStarts(rows, j, init)[k] + rows[j][k].colspan
  }

  lemma {:induction false} CarryMembers(rows: seq<Row>, t: nat, init: Occupancy, s: Slot, at: nat)
    requires t <= |rows| && at == s.row + t
    ensures s in Carry(rows[..t], init) <==>
      || Slot(at, s.col) in init
      || exists j: nat, k: nat :: j < t && TakesSlot(rows, init, j, k, at, s.col)
  {
    hide TakesSlot, PlaceRow, Advance;
    if t == 0 {
      assert rows[..0] == [];
    } else {
      var g, below := Carry(rows[..t - 1], init), Slot(s.row + 1, s.col);
      CarrySnoc(rows, t - 1, init);
      CarryMembers(rows, t - 1, init, below, at);
      RowTakes(rows, t - 1, init, below, at);
      AdvanceMembers(g, rows[t - 1], s);
      hide Carry;
      OneRowMore(rows, t, init, at, s.col);
    }
  }

  lemma AdvanceMembers(g: Occupancy, row: Row, s: Slot)
    ensures s in Advance(g, row) <==>
      Slot(s.row + 1, s.col) in g || Slot(s.row + 1, s.col) in PlaceRow(row, RowCols(g, 0), 0)
  {
    hide PlaceRow, RowCols;
  }

  lemma OneRowMore(rows: seq<Row>, t: nat, init: Occupancy, at: nat, c: nat)
    requires 0 < t <= |rows|
    ensures (exists j: nat, k: nat :: j < t && TakesSlot(rows, init, j, k, at, c)) <==>
      || (exists j: nat, k: nat :: j < t - 1 && TakesSlot(rows, init, j, k, at, c))
      || (exists j: nat, k: nat :: j == t - 1 && TakesSlot(rows, init, j, k, at, c))
  {
    hide TakesSlot;
    if j: nat, k: nat :| j < t && TakesSlot(rows, init, j, k, at, c) {
      assert j == t - 1 ==> TakesSlot(rows, init, t - 1, k, at, c);
    }
  }

  lemma RowTakes(rows: seq<Row>, j: nat, init: Occupancy, s: Slot, at: nat)
    requires j < |rows| && at == s.row + j
    ensures s in PlaceRow(rows[j], RowCols(Carry(rows[..j], init), 0), 0) <==>
      exists k: nat :: TakesSlot(rows, init, j, k, at, s.col)
  {
    var inh := RowCols(Carry(rows[..j], init), 0);
    PlaceRowMembers(rows[j], inh, 0, s);
    hide PlaceRow, Carry;
    if k: nat :| k < |rows[j]| && s in Block(Starts(rows[j], inh, 0)[k], rows[j][k]) {
      assert TakesSlot(rows, init, j, k, at, s.col);
    }
  }

  // A column of a row is taken exactly by what the previous page left open in it and by the cells
  // of that row and the rows above that span it.
  lemma OccupiedMeans(rows: seq<Row>, t: nat, init: Occupancy, c: nat)
    requires t < |rows|
    ensures c in OccupiedCols(rows, t, init) <==>
      Slot(t, c) in init || exists j: nat, k: nat :: TakesSlot(rows, init, j, k, t, c)
  {
    var s := Slot(0, c);
    CarryMembers(rows, t, init, s, t);
    RowTakes(rows, t, init, s, t);
    hide Carry, PlaceRow;
    assert forall j: nat, k: nat :: TakesSlot(rows, init, j, k, t, c) ==> j <= t;
    hide TakesSlot;
    assert c in OccupiedCols(rows, t, init) <==>
      s in Carry(rows[..t], init) || s in PlaceRow(rows[t], RowCols(Carry(rows[..t], init), 0), 0);
  }

  // ------------------------------------------------------ which cell it is

  // No cell from k on stamps the slot: it keeps its marker.
  lemma {:induction false} NotPlaced(sources: Sources, r: nat, row: Row, k: nat, inh: set<nat>, c: nat,
                                     starts: seq<nat>, s: Slot)
    requires k <= |row| && starts == Starts(row, inh, 0) && starts[k..] == Starts(row[k..], inh, c)
    requires forall n: nat {:trigger starts[n]} :: k <= n < |row| ==> s !in BlockAt(r, starts[n], row[n])
    ensures var m := PlaceSources(sources, r, row, k, inh, c);
      (s in m <==> s in sources) && (s in m ==> m[s] == sources[s])
    decreases |row| - k
  {
    hide Starts, NextFree, BlockAt, Stamp;
    if k < |row| {
      StartsStep(row, inh, k, c, starts);
      var next := Stamp(sources, r, starts[k], row[k], Marker(r, k));
      NotPlaced(next, r, row, k + 1, inh, starts[k] + row[k].colspan, starts, s);
    }
  }

  lemma {:induction false} PlacedSource(sources: Sources, r: nat, row: Row, k: nat, inh: set<nat>, c: nat,
                                        starts: seq<nat>, n: nat, s: Slot)
    requires k <= n < |row| && starts == Starts(row, inh, 0) && starts[k..] == Starts(row[k..], inh, c)
    requires s in BlockAt(r, starts[n], row[n])
    ensures var m := PlaceSources(sources, r, row, k, inh, c);
      s in m && m[s] == Marker(r, n)
    decreases |row| - k
  {
    hide Starts, NextFree, BlockAt, Stamp;
    StartsStep(row, inh, k, c, starts);
    var next := Stamp(sources, r, starts[k], row[k], Marker(r, k));
    var c' := starts[k] + row[k].colspan;
    if k == n {
      forall later: nat {:trigger starts[later]} | k < later < |row|
        ensures s !in BlockAt(r, starts[later], row[later])
      {
        StartsBefore(row, inh, later);
      }
      NotPlaced(next, r, row, k + 1, inh, c', starts, s);
    } else {
      PlacedSource(next, r, row, k + 1, inh, c', starts, n, s);
    }
  }

  // The marker of a slot names the cell that takes it, of the last row that has one, or else the
  // open rowspan of the previous page.
  ghost predicate NamesTaker(rows: seq<Row>, init: Occupancy, t: nat, m: Sources, s: Slot) {
    && (s in m <==> s in init || exists j: nat, k: nat :: j < t && TakesSlot(rows, init, j, k, s.row, s.col))
    && (s in m && m[s].row < 0 ==>
          && m[s] == Marker(-1, s.col) && s in init
          && forall j: nat, k: nat :: j < t ==> !TakesSlot(rows, init, j, k, s.row, s.col))
    && (s in m && m[s].row >= 0 ==>
          && m[s].row < t && TakesSlot(rows, init, m[s].row, m[s].cell, s.row, s.col)
          && forall j: nat, k: nat :: m[s].row < j < t ==> !TakesSlot(rows, init, j, k, s.row, s.col))
  }

  lemma {:induction false} SourceMeans(rows: seq<Row>, t: nat, init: Occupancy, s: Slot)
    requires t <= |rows|
    ensures NamesTaker(rows, init, t, SourcesAbove(rows, t, init), s)
  {
    hide TakesSlot, PlaceSources, Starts, NextFree, Carry;
    if t > 0 {
      var above, r := SourcesAbove(rows, t - 1, init), t - 1;
      SourceMeans(rows, r, init, s);
      SourcesMarks(rows, r, init);
      var inh := RowCols(above.Keys, r);
      InheritedKeys(rows, r, init, above);
      assert Starts(rows[r], inh, 0) == RowStarts(rows, r, init);
      assert Starts(rows[r], inh, 0)[0..] == Starts(rows[r][0..], inh, 0);
      forall n: nat {:trigger RowStarts(rows, r, init)[n]} |
        n < |rows[r]| && s in BlockAt(r, RowStarts(rows, r, init)[n], rows[r][n])
        ensures var m := PlaceSources(above, r, rows[r], 0, inh, 0); s in m && m[s] == Marker(r, n)
      {
        PlacedSource(above, r, rows[r], 0, inh, 0, Starts(rows[r], inh, 0), n, s);
      }
      if forall n: nat {:trigger RowStarts(rows, r, init)[n]} ::
           n < |rows[r]| ==> s !in BlockAt(r, RowStarts(rows, r, init)[n], rows[r][n]) {
        NotPlaced(above, r, rows[r], 0, inh, 0, Starts(rows[r], inh, 0), s);
      }
      NextNames(rows, init, r, above, PlaceSources(above, r, rows[r], 0, inh, 0), s);
    }
  }

  lemma InheritedKeys(rows: seq<Row>, r: nat, init: Occupancy, above: Sources)
    requires r < |rows| && Shift(above.Keys, r) == Carry(rows[..r], init)
    ensures RowCols(above.Keys, r) == Inherited(rows, r, init)
  {
    hide Carry;
    assert forall c: nat :: Slot(r, c) in above.Keys <==> Slot(0, c) in Shift(above.Keys, r);
  }

  lemma NextNames(rows: seq<Row>, init: Occupancy, r: nat, above: Sources, m: Sources, s: Slot)
    requires r < |rows| && NamesTaker(rows, init, r, above, s)
    requires forall n: nat {:trigger RowStarts(rows, r, init)[n]} ::
      n < |rows[r]| && s in BlockAt(r, RowStarts(rows, r, init)[n], rows[r][n]) ==> s in m && m[s] == Marker(r, n)
    requires (forall n: nat {:trigger RowStarts(rows, r, init)[n]} ::
                n < |rows[r]| ==> s !in BlockAt(r, RowStarts(rows, r, init)[n], rows[r][n])) ==>
      (s in m <==> s in above) && (s in m ==> m[s] == above[s])
    ensures NamesTaker(rows, init, r + 1, m, s)
  {
    hide RowStarts;
    forall n: nat ensures TakesSlot(rows, init, r, n, s.row, s.col) <==>
        n < |rows[r]| && s in BlockAt(r, RowStarts(rows, r, init)[n], rows[r][n])
    {
    }
    hide TakesSlot, BlockAt;
  }

  // The source of a column of the scanned row.
  lemma VisualSourceMeans(rows: seq<Row>, t: nat, init: Occupancy, c: nat)
    requires t < |rows|
    ensures var m := VisualSources(rows, t, init);
      && (c in m && m[c].row < 0 ==>
            && m[c] == Marker(-1, c) && Slot(t, c) in init
            && forall j: nat, k: nat :: !TakesSlot(rows, init, j, k, t, c))
      && (c in m && m[c].row >= 0 ==>
            && TakesSlot(rows, init, m[c].row, m[c].cell, t, c)
            && forall j: nat, k: nat :: j > m[c].row ==> !TakesSlot(rows, init, j, k, t, c))
  {
    hide SourcesAbove;
    SourceMeans(rows, t + 1, init, Slot(t, c));
    assert forall j: nat, k: nat :: TakesSlot(rows, init, j, k, t, c) ==> j < t + 1;
    hide TakesSlot;
  }

  // ------------------------------------------------------ the scan's result

  lemma {:induction false} MetricsAt(rows: seq<Row>, f: Occupancy, idx: nat, i: nat)
    requires i < |rows|
    ensures EffectiveCols(rows, f)[i] == WidthOf(OccupiedCols(rows, i, f))
    ensures Metrics(rows, f, idx)[i] ==
      RowMetrics(idx + i, WidthOf(OccupiedCols(rows, i, f)), ActualCols(rows[i]), |rows[i]|)
  {
    hide Land, ActualCols, WidthOf, Advance;
    if i == 0 {
      assert rows[..0] == [];
    } else {
      MetricsAt(rows[1..], Advance(f, rows[0]), idx + 1, i - 1);
      assert rows[..i][1..] == rows[1..][..i - 1] && rows[1..][i - 1] == rows[i];
    }
  }

  // The last row with cells, if there is one, and its metrics.
  lemma {:induction false} LastMeans(rows: seq<Row>, f: Occupancy, idx: nat)
    ensures LastNonempty(rows, f, idx).None? <==> forall i {:trigger rows[i]} :: 0 <= i < |rows| ==> rows[i] == []
    ensures LastNonempty(rows, f, idx).Some? ==>
      exists i: nat :: IsLastRow(rows, i) && LastNonempty(rows, f, idx).value == Metrics(rows, f, idx)[i]
  {
    hide Metric, Advance;
    if rows != [] {
      var rest, g := rows[1..], Advance(f, rows[0]);
      LastMeans(rest, g, idx + 1);
      assert forall i :: 0 < i < |rows| ==> rows[i] == rest[i - 1];
      if LastNonempty(rest, g, idx + 1).Some? {
        var i: nat :| IsLastRow(rest, i) && LastNonempty(rest, g, idx + 1).value == Metrics(rest, g, idx + 1)[i];
        assert rows[i + 1] == rest[i];
        assert IsLastRow(rows, i + 1) && Metrics(rows, f, idx)[i + 1] == Metrics(rest, g, idx + 1)[i];
      } else if rows[0] != [] {
        assert forall i {:trigger rows[i]} :: 0 < i < |rows| ==> rows[i] == [] by {
          forall i {:trigger rows[i]} | 0 < i < |rows| ensures rows[i] == [] {
            assert rest[i - 1] == [];
          }
        }
        assert IsLastRow(rows, 0);
      } else {
        forall i {:trigger rows[i]} | 0 <= i < |rows| ensures rows[i] == [] {
          assert i > 0 ==> rest[i - 1] == [];
        }
      }
    }
  }

  ghost predicate IsLastRow(rows: seq<Row>, i: nat) {
    i < |rows| && rows[i] != [] && forall j {:trigger rows[j]} :: i < j < |rows| ==> rows[j] == []
  }

  // Where row i's cells end.
  ghost function EndOf(rows: seq<Row>, i: nat, f: Occupancy): nat
    requires i < |rows|
  {
    End(rows[i], Inherited(rows, i, f), 0)
  }

  // The table's width holds every column taken and every cell's end, and no less would do.
  lemma {:induction false} TotalMeans(rows: seq<Row>, f: Occupancy)
    ensures forall s {:trigger s in f} :: s in f ==> s.col < TotalCols(rows, f)
    ensures forall i: nat {:trigger EndOf(rows, i, f)} :: i < |rows| ==> EndOf(rows, i, f) <= TotalCols(rows, f)
    ensures TotalCols(rows, f) > 0 ==>
      || (exists s :: s in f && s.col + 1 == TotalCols(rows, f))
      || (exists i: nat :: i < |rows| && EndOf(rows, i, f) == TotalCols(rows, f))
  {
    hide EndOf, TotalCols;
    if rows == [] {
      NoRows(f);
    } else {
      var n := |rows| - 1;
      TotalMeans(rows[..n], f);
      TotalNext(rows, n, f);
      forall i: nat {:trigger EndOf(rows, i, f)} | i < |rows| ensures EndOf(rows, i, f) <= TotalCols(rows, f) {
        if i < n {
          SameAbove(rows, n, i, f);
        }
      }
      if i: nat :| i < n && EndOf(rows[..n], i, f) == TotalCols(rows[..n], f) {
        SameAbove(rows, n, i, f);
      }
    }
  }

  lemma TotalNext(rows: seq<Row>, n: nat, f: Occupancy)
    requires |rows| == n + 1
    ensures TotalCols(rows, f) == Max(TotalCols(rows[..n], f), EndOf(rows, n, f))
  {
    hide End, Inherited, RowsWidth;
    CarrySnoc(rows, n, f);
    assert rows[..n + 1] == rows;
  }

  lemma SameAbove(rows: seq<Row>, n: nat, i: nat, f: Occupancy)
    requires i < n <= |rows|
    ensures EndOf(rows[..n], i, f) == EndOf(rows, i, f)
  {
    assert rows[..n][..i] == rows[..i];
  }

  lemma NoRows(f: Occupancy)
    ensures forall s {:trigger s in f} :: s in f ==> s.col < TotalCols([], f)
    ensures TotalCols([], f) > 0 ==> exists s :: s in f && s.col + 1 == TotalCols([], f)
  {
    var w := TotalCols([], f);
    assert w == WidthOf(AllCols(f));
    if w > 0 {
      assert w - 1 in AllCols(f);
    }
  }
}
