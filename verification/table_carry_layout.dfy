/**
 Why sinking the placeholders is enough: when the row below tiles its columns,
 the right-to-left insertions put every cell back on its own visual column.
 */
module TableCarryLayout {
  import opened TableGrid
  import opened TableLayout
  import opened TableCarry

  predicate Spans(start: nat, cell: Cell, c: nat) {
    start <= c < start + cell.colspan
  }

  ghost predicate Spanned(row: Row, starts: seq<nat>, c: nat)
    requires |row| == |starts|
  {
    exists k :: 0 <= k < |row| && Spans(starts[k], row[k], c)
  }

  // No explicit cell overlaps an inherited column.
  ghost predicate NoOverlap(row: Row, inh: set<nat>) {
    forall k, c: nat {:trigger Spans(Starts(row, inh, 0)[k], row[k], c)} ::
      0 <= k < |row| && Spans(Starts(row, inh, 0)[k], row[k], c) ==> c !in inh
  }

  // No column left of an inherited one stays empty.
  ghost predicate NoGap(row: Row, inh: set<nat>) {
    forall c: nat, d: nat {:trigger c in inh, d in inh} :: c < d && d in inh && c !in inh ==>
      Spanned(row, Starts(row, inh, 0), c)
  }

  ghost predicate Tiles(row: Row, inh: set<nat>) {
    NoOverlap(row, inh) && NoGap(row, inh)
  }

  // ------------------------------------------------------ placed cells

  function Cells(p: seq<Move>): (r: Row)
    ensures |r| == |p| && forall i :: 0 <= i < |p| ==> r[i] == p[i].cell
  {
    seq(|p|, i requires 0 <= i < |p| => p[i].cell)
  }

  function StartCols(p: seq<Move>): (r: seq<nat>)
    ensures |r| == |p| && forall i :: 0 <= i < |p| ==> r[i] == p[i].start
  {
    seq(|p|, i requires 0 <= i < |p| => p[i].start)
  }

  function Placed(row: Row, starts: seq<nat>, target: nat): (p: seq<Move>)
    requires |row| == |starts|
    ensures |p| == |row| && forall i :: 0 <= i < |p| ==> p[i] == Move(target, starts[i], row[i])
  {
    seq(|row|, i requires 0 <= i < |row| => Move(target, starts[i], row[i]))
  }

  ghost predicate InOrder(p: seq<Move>) {
    forall i, j {:trigger p[i], p[j]} :: 0 <= i < j < |p| ==> p[i].start + p[i].cell.colspan <= p[j].start
  }

  // The carried blocks lie in the inherited columns.
  ghost predicate BlocksWithin(carried: seq<Move>, inh: set<nat>) {
    forall i, c: nat {:trigger Spans(carried[i].start, carried[i].cell, c)} ::
      0 <= i < |carried| && Spans(carried[i].start, carried[i].cell, c) ==> c in inh
  }

  // ------------------------------------------------- one more insertion

  // The row after the carried cells from some column on are inserted: the first q
  // cells are untouched, and everything from q on starts at `from` or later.
  ghost predicate Woven(p: seq<Move>, q: nat, row: Row, inh: set<nat>, from: nat)
  {
    var starts := Starts(row, inh, 0);
    && q <= |row| && q <= |p| && InOrder(p)
    && (q == |p| ==> q == |row|)
    && (forall i {:trigger p[i]} :: 0 <= i < q ==> p[i].cell == row[i] && p[i].start == starts[i])
    && (forall i {:trigger p[i]} :: q <= i < |p| ==> p[i].start >= from)
    && (forall k {:trigger starts[k]} :: q <= k < |row| ==> starts[k] >= from)
  }

  lemma {:induction false} StartsPrefix(a: Row, b: Row, inh: set<nat>, c: nat)
    ensures Starts(a + b, inh, c) == Starts(a, inh, c) + Starts(b, inh, End(a, inh, c))
  {
    hide NextFree;
    if a == [] {
      assert a + b == b;
    } else {
      assert (a + b)[0] == a[0] && (a + b)[1..] == a[1..] + b;
      StartsPrefix(a[1..], b, inh, NextFree(inh, c) + a[0].colspan);
    }
  }

  // The recomputed mapping agrees with the intended columns up to position q,
  // and from q on it lies right of any inherited column left of `from`.
  lemma MappingOfWoven(p: seq<Move>, q: nat, row: Row, inh: set<nat>, from: nat, s: nat)
    requires Woven(p, q, row, inh, from) && Tiles(row, inh)
    requires s in inh && s <= from
    ensures var t := Starts(Cells(p), inh, 0);
      && (forall i {:trigger t[i]} :: 0 <= i < q ==> t[i] == p[i].start)
      && (q < |p| ==> t[q] >= s)
  {
    var cells := Cells(p);
    var starts, t := Starts(row, inh, 0), Starts(cells, inh, 0);
    assert cells == cells[..q] + cells[q..] && row == row[..q] + row[q..];
    assert cells[..q] == row[..q];
    var e := End(row[..q], inh, 0);
    StartsPrefix(cells[..q], cells[q..], inh, 0);
    StartsPrefix(row[..q], row[q..], inh, 0);
    if q < |p| && t[q] < s {
      assert t[q] == NextFree(inh, e);
      var c := t[q];
      assert c !in inh && Spanned(row, starts, c);
      var k :| 0 <= k < |row| && Spans(starts[k], row[k], c);
      assert k < q;
      SpanBelowEnd(row[..q], inh, k, c);
      assert false;
    }
  }

  lemma SpanBelowEnd(row: Row, inh: set<nat>, k: nat, c: nat)
    requires k < |row| && Spans(Starts(row, inh, 0)[k], row[k], c)
    ensures c < End(row, inh, 0)
  {
    StartsSorted(row, inh, 0);
  }

  lemma InsertInOrder(p: seq<Move>, j: nat, x: Move)
    requires j <= |p| && InOrder(p)
    requires forall i {:trigger p[i]} :: 0 <= i < j ==> p[i].start + p[i].cell.colspan <= x.start
    requires forall i {:trigger p[i]} :: j <= i < |p| ==> p[i].start >= x.start + x.cell.colspan
    ensures InOrder(InsertAt(p, j, x))
  {
  }

  lemma WithinInherited(x: Move, inh: set<nat>, c: nat)
    requires BlocksWithin([x], inh) && x.start <= c < x.start + x.cell.colspan
    ensures c in inh
  {
    assert Spans([x][0].start, [x][0].cell, c);
  }

  // An explicit cell that starts left of an inherited column ends there at the latest.
  lemma EndsBefore(row: Row, inh: set<nat>, i: nat, c: nat)
    requires NoOverlap(row, inh) && i < |row| && c in inh && Starts(row, inh, 0)[i] < c
    ensures Starts(row, inh, 0)[i] + row[i].colspan <= c
  {
    assert Spans(Starts(row, inh, 0)[i], row[i], c) ==> c !in inh;
  }

  // One that starts within an inherited block starts after it.
  lemma StartsAfter(row: Row, inh: set<nat>, i: nat, x: Move)
    requires BlocksWithin([x], inh) && i < |row| && Starts(row, inh, 0)[i] >= x.start
    ensures Starts(row, inh, 0)[i] >= x.start + x.cell.colspan
  {
    var start := Starts(row, inh, 0)[i];
    StartsSorted(row, inh, 0);
    if start < x.start + x.cell.colspan {
      WithinInherited(x, inh, start);
    }
  }

  lemma InsertKeepsWoven(p: seq<Move>, q: nat, row: Row, inh: set<nat>, from: nat, x: Move)
    requires Woven(p, q, row, inh, from) && NoOverlap(row, inh)
    requires x.cell.colspan >= 1 && x.start + x.cell.colspan <= from && BlocksWithin([x], inh)
    ensures var j := InsertIndex(StartCols(p), x.start);
      j <= q && Woven(InsertAt(p, j, x), j, row, inh, x.start)
  {
    hide NoOverlap, BlocksWithin, Starts, Spans, InOrder;
    var starts := Starts(row, inh, 0);
    var j := InsertIndex(StartCols(p), x.start);
    assert q < |p| ==> StartCols(p)[q] == p[q].start >= from;
    WithinInherited(x, inh, x.start);
    forall i | 0 <= i < j ensures p[i].start + p[i].cell.colspan <= x.start {
      assert StartCols(p)[i] < x.start;
      EndsBefore(row, inh, i, x.start);
    }
    if j < q {
      assert StartCols(p)[j] >= x.start;
      StartsAfter(row, inh, j, x);
      RightOf(p, j);
    }
    InsertInOrder(p, j, x);
    forall k | j <= k < |row| ensures starts[k] >= x.start {
      if k < q {
        assert p[k].start == starts[k];
      }
    }
  }

  lemma RightOf(p: seq<Move>, j: nat)
    requires InOrder(p) && j < |p|
    ensures forall i {:trigger p[i]} :: j <= i < |p| ==> p[i].start >= p[j].start
  {
  }

  // ------------------------------------------------- all the insertions

  lemma InsertMoveLast(x: Move, s: seq<Move>)
    requires forall m :: m in s ==> m.row == x.row && m.start > x.start
    ensures InsertMove(x, s) == s + [x]
  {
    if s != [] {
      InsertMoveLast(x, s[1..]);
      assert s == [s[0]] + s[1..];
    }
  }

  lemma SortAscending(k: seq<Move>)
    requires k != [] && forall m :: m in k[1..] ==> m.row == k[0].row && m.start > k[0].start
    ensures SortMoves(k) == SortMoves(k[1..]) + [k[0]]
  {
    forall m | m in SortMoves(k[1..]) ensures m.row == k[0].row && m.start > k[0].start {
      assert m in multiset(SortMoves(k[1..]));
    }
    InsertMoveLast(k[0], SortMoves(k[1..]));
  }

  lemma {:induction false} InsertAllSnoc(rows: seq<Row>, moves: seq<Move>, x: Move)
    requires forall m :: m in moves + [x] ==> m.row < |rows|
    ensures x.row < |rows| && forall m :: m in moves ==> m.row < |rows|
    ensures InsertAll(rows, moves + [x]) == InsertBefore(InsertAll(rows, moves), x.row, x.start, x.cell)
    decreases |moves|
  {
    hide InsertBefore;
    assert (moves + [x])[|moves|] == x;
    assert forall m :: m in moves ==> m in moves + [x];
    var all := moves + [x];
    if moves == [] {
      assert all[1..] == [];
    } else {
      assert all[0] == moves[0] && all[1..] == moves[1..] + [x];
      InsertAllSnoc(InsertBefore(rows, moves[0].row, moves[0].start, moves[0].cell), moves[1..], x);
    }
  }

  ghost predicate Carriable(k: seq<Move>, t: nat, inh: set<nat>) {
    && InOrder(k) && BlocksWithin(k, inh)
    && forall i {:trigger k[i]} :: 0 <= i < |k| ==> k[i].row == t && k[i].cell.colspan >= 1
  }

  // Inserting one cell with the recomputed mapping is inserting it by its intended column.
  lemma InsertOne(rows: seq<Row>, t: nat, p: seq<Move>, q: nat, from: nat, x: Move)
    requires t < |rows| && Tiles(rows[t], Inherited(rows, t, {}))
    requires Woven(p, q, rows[t], Inherited(rows, t, {}), from)
    requires Carriable([x], t, Inherited(rows, t, {})) && x.start + x.cell.colspan <= from
    ensures var j := InsertIndex(StartCols(p), x.start);
      && Woven(InsertAt(p, j, x), j, rows[t], Inherited(rows, t, {}), x.start)
      && InsertBefore(rows[t := Cells(p)], t, x.start, x.cell) == rows[t := Cells(InsertAt(p, j, x))]
  {
    hide Starts, NoOverlap, NoGap, InOrder, Carry, RowCols, BlocksWithin;
    var inh := Inherited(rows, t, {});
    var now := rows[t := Cells(p)];
    var j := InsertIndex(StartCols(p), x.start);
    assert now[..t] == rows[..t];
    var mapping := RowStarts(now, t, {});
    assert mapping == Starts(Cells(p), inh, 0);
    hide Inherited, RowStarts;
    assert [x][0] == x;
    WithinInherited(x, inh, x.start);
    InsertKeepsWoven(p, q, rows[t], inh, from, x);
    MappingOfWoven(p, q, rows[t], inh, from, x.start);
    hide Tiles, Woven, Carriable, BlocksWithin;
    SameIndex(p, q, j, mapping, x.start);
    assert InsertAt(Cells(p), j, x.cell) == Cells(InsertAt(p, j, x));
  }

  lemma SameIndex(p: seq<Move>, q: nat, j: nat, mapping: seq<nat>, v: nat)
    requires j <= q <= |p| == |mapping| && j == InsertIndex(StartCols(p), v)
    requires forall i {:trigger mapping[i]} :: 0 <= i < q ==> mapping[i] == p[i].start
    requires q < |p| ==> mapping[q] >= v
    ensures InsertIndex(mapping, v) == j
  {
    forall i | 0 <= i < j ensures mapping[i] < v {
      assert mapping[i] == p[i].start == StartCols(p)[i];
    }
    if j < q {
      assert mapping[j] == p[j].start == StartCols(p)[j];
    }
    InsertIndexUnique(mapping, v, j);
  }

  lemma WeaveNone(row: Row, inh: set<nat>, t: nat, from: nat)
    ensures var p := Placed(row, Starts(row, inh, 0), t);
      Cells(p) == row && Woven(p, |row|, row, inh, from)
  {
    StartsSorted(row, inh, 0);
  }

  lemma InsertMultiset(p: seq<Move>, j: nat, x: Move)
    requires j <= |p|
    ensures multiset(InsertAt(p, j, x)) == multiset(p) + multiset([x])
  {
    assert p == p[..j] + p[j..];
  }

  lemma HeadMultiset(k: seq<Move>)
    requires k != []
    ensures multiset(k) == multiset([k[0]]) + multiset(k[1..])
  {
    assert k == [k[0]] + k[1..];
  }

  lemma CarriableParts(k: seq<Move>, t: nat, inh: set<nat>)
    requires k != [] && Carriable(k, t, inh)
    ensures Carriable(k[1..], t, inh) && Carriable([k[0]], t, inh)
    ensures k[1..] != [] ==> k[0].start + k[0].cell.colspan <= k[1..][0].start
    ensures forall m :: m in k[1..] ==> m.row == k[0].row && m.start > k[0].start
    ensures forall m :: m in k ==> m.row == t
  {
    var rest := k[1..];
    assert forall i {:trigger rest[i]} :: 0 <= i < |rest| ==> rest[i] == k[i + 1];
    forall i, c: nat | 0 <= i < |rest| && Spans(rest[i].start, rest[i].cell, c) ensures c in inh {
      assert Spans(k[i + 1].start, k[i + 1].cell, c);
    }
    forall c: nat | Spans(k[0].start, k[0].cell, c) ensures c in inh {
    }
  }

  lemma WeaveStep(rows: seq<Row>, t: nat, k: seq<Move>, p1: seq<Move>, q1: nat, from1: nat)
    returns (p: seq<Move>, q: nat)
    requires t < |rows| && Tiles(rows[t], Inherited(rows, t, {}))
    requires k != [] && Carriable([k[0]], t, Inherited(rows, t, {})) && k[0].start + k[0].cell.colspan <= from1
    requires forall m :: m in k ==> m.row == t
    requires forall m :: m in k[1..] ==> m.row == k[0].row && m.start > k[0].start
    requires forall m :: m in SortMoves(k[1..]) ==> m.row == t
    requires InsertAll(rows, SortMoves(k[1..])) == rows[t := Cells(p1)]
    requires Woven(p1, q1, rows[t], Inherited(rows, t, {}), from1)
    ensures forall m :: m in SortMoves(k) ==> m.row == t
    ensures InsertAll(rows, SortMoves(k)) == rows[t := Cells(p)]
    ensures multiset(p) == multiset(p1) + multiset([k[0]])
    ensures Woven(p, q, rows[t], Inherited(rows, t, {}), k[0].start)
  {
    hide Tiles, Carriable, Woven, Starts, Inherited, InsertBefore, InsertMove, SortMoves, InsertAll, RowStarts;
    InsertOne(rows, t, p1, q1, from1, k[0]);
    q := InsertIndex(StartCols(p1), k[0].start);
    p := InsertAt(p1, q, k[0]);
    SortAscending(k);
    SortKeepsRow(k, t);
    InsertAllSnoc(rows, SortMoves(k[1..]), k[0]);
    InsertMultiset(p1, q, k[0]);
  }

  // Inserting the carried cells in the order the code uses weaves them into the row.
  lemma NothingToWeave(rows: seq<Row>, t: nat)
    requires t < |rows|
    ensures SortMoves([]) == [] && InsertAll(rows, SortMoves([])) == rows == rows[t := rows[t]]
  {
  }

  lemma {:induction false} WeaveAll(rows: seq<Row>, t: nat, k: seq<Move>, from: nat) returns (p: seq<Move>, q: nat)
    requires t < |rows| && Tiles(rows[t], Inherited(rows, t, {}))
    requires Carriable(k, t, Inherited(rows, t, {})) && (k != [] ==> from == k[0].start)
    ensures forall m :: m in SortMoves(k) ==> m.row == t
    ensures InsertAll(rows, SortMoves(k)) == rows[t := Cells(p)]
    ensures multiset(p) == multiset(Placed(rows[t], RowStarts(rows, t, {}), t)) + multiset(k)
    ensures Woven(p, q, rows[t], Inherited(rows, t, {}), from)
    decreases |k|
  {
    hide Tiles, Carriable, Woven, Starts, Inherited, InsertBefore, InsertMove, InsertAll, SortMoves, Cells, Placed;
    if k == [] {
      p, q := Placed(rows[t], RowStarts(rows, t, {}), t), |rows[t]|;
      WeaveNone(rows[t], Inherited(rows, t, {}), t, from);
      NothingToWeave(rows, t);
    } else {
      var rest := k[1..];
      CarriableParts(k, t, Inherited(rows, t, {}));
      var from1 := if rest == [] then k[0].start + k[0].cell.colspan else rest[0].start;
      var p1, q1 := WeaveAll(rows, t, rest, from1);
      p, q := WeaveStep(rows, t, k, p1, q1, from1);
      HeadMultiset(k);
    }
  }

  // ----------------------------------------------------------- the slots

  function Slots(p: seq<Move>): (r: Occupancy)
    ensures forall s {:trigger s in r} :: s in r <==> exists m :: m in p && s in Block(m.start, m.cell)
  {
    if p == [] then {} else
      assert p == [p[0]] + p[1..];
      Block(p[0].start, p[0].cell) + Slots(p[1..])
  }

  lemma SlotsOfSum(p: seq<Move>, a: seq<Move>, b: seq<Move>)
    requires multiset(p) == multiset(a) + multiset(b)
    ensures Slots(p) == Slots(a) + Slots(b)
    ensures forall m :: m in p <==> m in a || m in b
  {
    forall m ensures m in p <==> m in a || m in b {
      assert m in p <==> m in multiset(p);
    }
  }

  lemma PlaceRowSlots(row: Row, inh: set<nat>, t: nat)
    ensures PlaceRow(row, inh, 0) == Slots(Placed(row, Starts(row, inh, 0), t))
  {
    var starts := Starts(row, inh, 0);
    var p := Placed(row, starts, t);
    forall s: Slot ensures s in PlaceRow(row, inh, 0) <==> s in Slots(p) {
      PlaceRowMembers(row, inh, 0, s);
      if k :| 0 <= k < |row| && s in Block(starts[k], row[k]) {
        assert p[k] in p && s in Block(p[k].start, p[k].cell);
      }
      if s in Slots(p) {
        var m :| m in p && s in Block(m.start, m.cell);
        var k :| 0 <= k < |p| && p[k] == m;
        assert s in Block(starts[k], row[k]);
      }
    }
  }

  predicate Sinks(cell: Cell) {
    cell.rowspan > 1 && !HasSemanticContent(cell)
  }

  lemma {:induction false} CarriedMembers(row: Row, starts: seq<nat>, t: nat, m: Move)
    requires |row| == |starts|
    ensures m in CarriedCells(row, starts, t) <==>
      exists k :: 0 <= k < |row| && Sinks(row[k]) && m == Move(t, starts[k], row[k].(rowspan := row[k].rowspan - 1))
  {
    if row != [] {
      CarriedMembers(row[1..], starts[1..], t, m);
      var rest, cols := row[1..], starts[1..];
      if k :| 0 <= k < |rest| && Sinks(rest[k]) && m == Move(t, cols[k], rest[k].(rowspan := rest[k].rowspan - 1)) {
        assert Sinks(row[k + 1]) && m == Move(t, starts[k + 1], row[k + 1].(rowspan := row[k + 1].rowspan - 1));
      }
      if k :| 0 <= k < |row| && Sinks(row[k]) && m == Move(t, starts[k], row[k].(rowspan := row[k].rowspan - 1)) {
        if k > 0 {
          assert Sinks(row[1..][k - 1]) && starts[1..][k - 1] == starts[k];
        }
      }
    }
  }

  // What a fully blank row carries down is exactly what its cells occupy below it.
  lemma CarriedSlots(row: Row, t: nat)
    requires !RowHasSemanticContent(row)
    ensures Advance({}, row) == Slots(CarriedCells(row, Starts(row, {}, 0), t))
  {
    var starts := Starts(row, {}, 0);
    var k := CarriedCells(row, starts, t);
    assert RowCols({}, 0) == {};
    forall s: Slot ensures s in Advance({}, row) <==> s in Slots(k) {
      var below := Slot(s.row + 1, s.col);
      PlaceRowMembers(row, {}, 0, below);
      if i :| 0 <= i < |row| && below in Block(starts[i], row[i]) {
        var m := Move(t, starts[i], row[i].(rowspan := row[i].rowspan - 1));
        assert Sinks(row[i]);
        CarriedMembers(row, starts, t, m);
        assert s in Block(m.start, m.cell);
      }
      if s in Slots(k) {
        var m :| m in k && s in Block(m.start, m.cell);
        CarriedMembers(row, starts, t, m);
        var i :| 0 <= i < |row| && Sinks(row[i]) && m == Move(t, starts[i], row[i].(rowspan := row[i].rowspan - 1));
        assert below in Block(starts[i], row[i]);
      }
    }
  }

  lemma {:induction false} CarriedInOrder(row: Row, starts: seq<nat>, t: nat)
    requires |row| == |starts|
    requires forall j, k {:trigger starts[j], starts[k]} ::
      0 <= j < k < |row| ==> starts[j] + row[j].colspan <= starts[k]
    ensures InOrder(CarriedCells(row, starts, t))
  {
    if row != [] {
      var rest := CarriedCells(row[1..], starts[1..], t);
      assert forall j, k {:trigger starts[1..][j], starts[1..][k]} :: 0 <= j < k < |row| - 1 ==>
        starts[1..][j] + row[1..][j].colspan <= starts[1..][k] by {
        forall j, k | 0 <= j < k < |row| - 1 ensures starts[1..][j] + row[1..][j].colspan <= starts[1..][k] {
          assert starts[j + 1] + row[j + 1].colspan <= starts[k + 1];
        }
      }
      CarriedInOrder(row[1..], starts[1..], t);
      forall i | 0 <= i < |rest| ensures starts[0] + row[0].colspan <= rest[i].start {
        CarriedMembers(row[1..], starts[1..], t, rest[i]);
        var k :| 0 <= k < |row| - 1 && rest[i].start == starts[1..][k];
        assert starts[1..][k] == starts[k + 1];
      }
    }
  }

  predicate Wide(row: Row) {
    forall k :: 0 <= k < |row| ==> row[k].colspan >= 1
  }

  lemma CarriedCarriable(row: Row, t: nat)
    requires !RowHasSemanticContent(row) && Wide(row)
    ensures Carriable(CarriedCells(row, Starts(row, {}, 0), t), t, RowCols(Advance({}, row), 0))
  {
    var starts := Starts(row, {}, 0);
    var k := CarriedCells(row, starts, t);
    StartsSorted(row, {}, 0);
    CarriedInOrder(row, starts, t);
    CarriedSlots(row, t);
    forall i | 0 <= i < |k|
      ensures k[i].row == t && k[i].cell.colspan >= 1 && k[i].cell.rowspan >= 1
    {
      CarriedMembers(row, starts, t, k[i]);
    }
    forall i, c: nat | 0 <= i < |k| && Spans(k[i].start, k[i].cell, c) ensures c in RowCols(Advance({}, row), 0) {
      assert k[i] in k && Slot(0, c) in Block(k[i].start, k[i].cell);
    }
  }

  // ------------------------------------------------------- no hole is left

  lemma {:induction false} ContiguousStarts(p: seq<Move>, c: nat)
    requires p != [] ==> p[0].start == c
    requires forall i, j {:trigger p[i], p[j]} ::
      0 <= i && j == i + 1 < |p| ==> p[j].start == p[i].start + p[i].cell.colspan
    ensures Starts(Cells(p), {}, c) == StartCols(p)
  {
    if p != [] {
      var rest := p[1..];
      assert forall i {:trigger rest[i]} :: 0 <= i < |rest| ==> rest[i] == p[i + 1];
      ContiguousStarts(rest, c + p[0].cell.colspan);
      assert Cells(p)[1..] == Cells(rest) && StartCols(p)[1..] == StartCols(rest);
    }
  }

  function EndBefore(p: seq<Move>, i: nat): nat
    requires i <= |p|
  {
    if i == 0 then 0 else p[i - 1].start + p[i - 1].cell.colspan
  }

  // Nothing placed covers a column between two neighbours.
  lemma BetweenIsUncovered(p: seq<Move>, i: nat, x: nat)
    requires InOrder(p) && i < |p| && EndBefore(p, i) <= x < p[i].start
    ensures forall m :: m in p ==> !Spans(m.start, m.cell, x)
  {
    forall m | m in p ensures !Spans(m.start, m.cell, x) {
      var j :| 0 <= j < |p| && p[j] == m;
      if j < i - 1 {
        assert p[j].start + p[j].cell.colspan <= p[i - 1].start;
      } else if j > i {
        assert p[i].start + p[i].cell.colspan <= p[j].start;
      }
    }
  }

  ghost predicate Union(p: seq<Move>, a: seq<Move>, b: seq<Move>) {
    forall m {:trigger m in p} {:trigger m in a} {:trigger m in b} :: m in p <==> m in a || m in b
  }

  lemma NoHole(p: seq<Move>, row: Row, inh: set<nat>, k: seq<Move>, t: nat, i: nat)
    requires Tiles(row, inh) && Wide(row) && Carriable(k, t, inh) && inh == RowCols(Slots(k), 0)
    requires InOrder(p) && Union(p, Placed(row, Starts(row, inh, 0), t), k)
    requires i < |p|
    ensures p[i].start == EndBefore(p, i)
  {
    var starts := Starts(row, inh, 0);
    var e := Placed(row, starts, t);
    var g := EndBefore(p, i);
    if i > 0 {
      assert p[i - 1].start + p[i - 1].cell.colspan <= p[i].start;
    }
    if g < p[i].start {
      BetweenIsUncovered(p, i, g);
      CoveredIsPlaced(p, row, inh, k, t, g);
      assert p[i] in p;
      if p[i] in k {
        CarriedStart(k, t, inh, p[i]);
        assert false;
      } else {
        var n :| 0 <= n < |e| && e[n] == p[i];
        ExplicitFollows(p, row, inh, t, i, n, g);
        assert false;
      }
    }
  }

  // An inherited column, and one an explicit cell spans, is covered by something placed.
  lemma CoveredIsPlaced(p: seq<Move>, row: Row, inh: set<nat>, k: seq<Move>, t: nat, g: nat)
    requires inh == RowCols(Slots(k), 0) && Union(p, Placed(row, Starts(row, inh, 0), t), k)
    ensures g in inh || Spanned(row, Starts(row, inh, 0), g) ==>
      exists m {:trigger m in p} :: m in p && Spans(m.start, m.cell, g)
  {
    if g in inh {
      var m :| m in k && Slot(0, g) in Block(m.start, m.cell);
      assert m in p && Spans(m.start, m.cell, g);
    } else if Spanned(row, Starts(row, inh, 0), g) {
      var starts := Starts(row, inh, 0);
      var n :| 0 <= n < |row| && Spans(starts[n], row[n], g);
      SpannedByPlaced(p, Placed(row, starts, t), n, g);
    }
  }

  lemma CarriedStart(k: seq<Move>, t: nat, inh: set<nat>, m: Move)
    requires Carriable(k, t, inh) && m in k
    ensures m.start in inh
  {
    var j :| 0 <= j < |k| && k[j] == m;
    assert Spans(k[j].start, k[j].cell, m.start);
  }

  lemma SpannedByPlaced(p: seq<Move>, e: seq<Move>, n: nat, g: nat)
    requires n < |e| && Spans(e[n].start, e[n].cell, g) && forall m {:trigger m in e} :: m in e ==> m in p
    ensures exists m {:trigger m in p} :: m in p && Spans(m.start, m.cell, g)
  {
    assert e[n] in e;
  }

  // The explicit cell before the one placed at position i ends before position i.
  lemma ExplicitBefore(p: seq<Move>, row: Row, inh: set<nat>, t: nat, i: nat, n: nat)
    requires Wide(row) && InOrder(p) && i < |p| && 0 < n < |row|
    requires Placed(row, Starts(row, inh, 0), t)[n - 1] in p
    requires p[i] == Placed(row, Starts(row, inh, 0), t)[n]
    ensures Starts(row, inh, 0)[n - 1] + row[n - 1].colspan <= EndBefore(p, i)
  {
    var before := Placed(row, Starts(row, inh, 0), t)[n - 1];
    StartsSorted(row, inh, 0);
    var j :| 0 <= j < |p| && p[j] == before;
    EarlierEnds(p, j, i);
  }

  lemma EarlierEnds(p: seq<Move>, j: nat, i: nat)
    requires InOrder(p) && j < |p| && i < |p| && p[j].start < p[i].start
    ensures p[j].start + p[j].cell.colspan <= EndBefore(p, i)
  {
    OrderedByStart(p, j, i);
    if j < i - 1 {
      assert p[j].start + p[j].cell.colspan <= p[i - 1].start;
    }
  }

  lemma ExplicitFollows(p: seq<Move>, row: Row, inh: set<nat>, t: nat, i: nat, n: nat, g: nat)
    requires Wide(row) && InOrder(p) && i < |p| && n < |row|
    requires forall m :: m in Placed(row, Starts(row, inh, 0), t) ==> m in p
    requires p[i] == Placed(row, Starts(row, inh, 0), t)[n]
    requires EndBefore(p, i) <= g < p[i].start
    ensures g in inh
  {
    StartIsNextFree(row, inh, 0, n);
    if n > 0 {
      ExplicitBefore(p, row, inh, t, i, n);
    }
  }

  lemma OrderedByStart(p: seq<Move>, j: nat, i: nat)
    requires InOrder(p) && j < |p| && i < |p| && p[j].start < p[i].start
    ensures j < i
  {
    var pi, pj := p[i], p[j];
    assert i < j ==> pi.start + pi.cell.colspan <= pj.start;
  }

  lemma {:induction false} StartIsNextFree(row: Row, inh: set<nat>, c: nat, n: nat)
    requires n < |row|
    ensures Starts(row, inh, c)[n] ==
      NextFree(inh, if n == 0 then c else Starts(row, inh, c)[n - 1] + row[n - 1].colspan)
  {
    if n > 0 {
      StartIsNextFree(row[1..], inh, NextFree(inh, c) + row[0].colspan, n - 1);
    }
  }

  // ------------------------------------------------------- the theorem

  // The row below after the blank row h sank into it.
  ghost function SunkRow(rows: seq<Row>, h: nat): Row
    requires h + 1 < |rows|
  {
    CarryDown(rows, h)[h + 1]
  }

  lemma SinkingKeepsRow(rows: seq<Row>, h: nat)
    requires h + 1 < |rows| && Carry(rows[..h], {}) == {}
    requires !RowHasSemanticContent(rows[h]) && Wide(rows[h]) && Wide(rows[h + 1])
    requires Tiles(rows[h + 1], Inherited(rows, h + 1, {}))
    ensures CarryDown(rows, h) == rows[h + 1 := SunkRow(rows, h)]
    ensures var sunk := SunkRow(rows, h);
      && multiset(Placed(sunk, Starts(sunk, {}, 0), h + 1)) ==
           multiset(Placed(rows[h + 1], RowStarts(rows, h + 1, {}), h + 1))
           + multiset(CarriedCells(rows[h], RowStarts(rows, h, {}), h + 1))
      && Land({}, sunk) == Land(Advance({}, rows[h]), rows[h + 1])
  {
    var t := h + 1;
    var d0, d1 := rows[h], rows[t];
    CarrySnoc(rows, h, {});
    var inh := Inherited(rows, t, {});
    assert RowCols({}, 0) == {};
    assert RowStarts(rows, h, {}) == Starts(d0, {}, 0);
    assert inh == RowCols(Advance({}, d0), 0);
    var k := CarriedCells(d0, Starts(d0, {}, 0), t);
    CarriedCarriable(d0, t);
    CarriedSlots(d0, t);
    var p, q := WeaveAll(rows, t, k, if k == [] then 0 else k[0].start);
    var sunk := Cells(p);
    assert CarryDown(rows, h) == rows[t := sunk];
    WovenPlaced(p, q, d1, inh, if k == [] then 0 else k[0].start, k, t);
  }

  lemma WovenPlaced(p: seq<Move>, q: nat, row: Row, inh: set<nat>, from: nat, k: seq<Move>, t: nat)
    requires Tiles(row, inh) && Wide(row) && Carriable(k, t, inh) && inh == RowCols(Slots(k), 0)
    requires Woven(p, q, row, inh, from)
    requires multiset(p) == multiset(Placed(row, Starts(row, inh, 0), t)) + multiset(k)
    ensures Placed(Cells(p), Starts(Cells(p), {}, 0), t) == p
    ensures Land({}, Cells(p)) == Slots(k) + PlaceRow(row, inh, 0)
  {
    var e := Placed(row, Starts(row, inh, 0), t);
    SlotsOfSum(p, e, k);
    PlaceRowSlots(row, inh, t);
    hide Tiles, Slots, Land, PlaceRow;
    assert InOrder(p) && Union(p, e, k);
    forall i, j | 0 <= i && j == i + 1 < |p| ensures p[j].start == p[i].start + p[i].cell.colspan {
      NoHole(p, row, inh, k, t, j);
    }
    if p != [] {
      NoHole(p, row, inh, k, t, 0);
    }
    ContiguousStarts(p, 0);
    forall i | 0 <= i < |p| ensures p[i].row == t {
      assert p[i] in p;
    }
    assert Placed(Cells(p), StartCols(p), t) == p;
    LandAlone(Cells(p), t);
  }

  lemma LandAlone(row: Row, t: nat)
    ensures Land({}, row) == Slots(Placed(row, Starts(row, {}, 0), t))
  {
    assert RowCols({}, 0) == {};
    PlaceRowSlots(row, {}, t);
  }

  // Tables that carry the same rowspans into their common rest lay that rest out alike.
  lemma SameRest(a: seq<Row>, b: seq<Row>, rest: seq<Row>)
    requires Carry(a, {}) == Carry(b, {})
    ensures Carry(a + rest, {}) == Carry(b + rest, {})
  {
    CarryComposes(a, rest, {});
    CarryComposes(b, rest, {});
  }

  lemma SumPrefix(a: seq<Row>, rest: seq<Row>, t: nat)
    requires t < |rest|
    ensures (a + rest)[..|a| + t] == a + rest[..t] && (a + rest)[|a| + t] == rest[t]
  {
  }

  lemma SameRestRow(a: seq<Row>, b: seq<Row>, rest: seq<Row>, t: nat)
    requires Carry(a, {}) == Carry(b, {}) && t < |rest|
    ensures RowStarts(a + rest, |a| + t, {}) == RowStarts(b + rest, |b| + t, {})
  {
    hide Carry, Starts, RowCols;
    SumPrefix(a, rest, t);
    SumPrefix(b, rest, t);
    SameRest(a, b, rest[..t]);
  }

  // Deleting the emptied row after sinking its placeholders leaves every later row's
  // cells in the same visual columns, and carries the same rowspans past the table.
  lemma SinkingKeepsLaterRows(rows: seq<Row>, h: nat)
    requires h + 1 < |rows| && Carry(rows[..h], {}) == {}
    requires !RowHasSemanticContent(rows[h]) && Wide(rows[h]) && Wide(rows[h + 1])
    requires Tiles(rows[h + 1], Inherited(rows, h + 1, {}))
    ensures var kept := CarryDown(rows, h)[h + 1..];
      && |kept| == |rows| - h - 1
      && kept[1..] == rows[h + 2..]
      && Carry(kept, {}) == Carry(rows, {})
      && forall t: nat {:trigger RowStarts(kept, t, {})} :: 1 <= t < |kept| ==>
           RowStarts(kept, t, {}) == RowStarts(rows, h + 1 + t, {})
  {
    hide Carry, Tiles, Inherited, RowStarts, Wide, RowHasSemanticContent, CarryDown, Land, Placed;
    SinkingKeepsRow(rows, h);
    SunkCarriesAlike(rows, h);
    KeptRows(rows, CarryDown(rows, h)[h + 1..], SunkRow(rows, h), h + 2);
  }

  lemma KeptRows(rows: seq<Row>, kept: seq<Row>, sunk: Row, n: nat)
    requires n <= |rows| && kept == [sunk] + rows[n..]
    requires Carry([sunk], {}) == Carry(rows[..n], {})
    ensures kept[1..] == rows[n..]
    ensures Carry(kept, {}) == Carry(rows, {})
    ensures forall t: nat {:trigger RowStarts(kept, t, {})} :: 1 <= t < |kept| ==>
      RowStarts(kept, t, {}) == RowStarts(rows, n - 1 + t, {})
  {
    hide Carry, RowStarts;
    assert rows == rows[..n] + rows[n..];
    SameRest([sunk], rows[..n], rows[n..]);
    forall t: nat | 1 <= t < |kept| ensures RowStarts(kept, t, {}) == RowStarts(rows, n - 1 + t, {}) {
      SameRestRow([sunk], rows[..n], rows[n..], t - 1);
    }
  }

  lemma SunkCarriesAlike(rows: seq<Row>, h: nat)
    requires h + 1 < |rows| && Carry(rows[..h], {}) == {}
    requires Land({}, SunkRow(rows, h)) == Land(Advance({}, rows[h]), rows[h + 1])
    ensures Carry([SunkRow(rows, h)], {}) == Carry(rows[..h + 2], {})
  {
    CarrySnoc(rows, h, {});
    CarrySnoc(rows, h + 1, {});
    assert [SunkRow(rows, h)][1..] == [];
  }
}
