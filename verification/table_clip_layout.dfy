/**
 When clipping the placeholders that open rowspans already cover leaves every other cell in its
 visual column: exactly when none of those cells starts in an open slot.
 */
module TableClipLayout {
  import opened TableGrid
  import opened TableLayout
  import opened TableCarry
  import opened TableAdjust

  // The open slots cover this many of the cell's rows, from row r on, and not one more.
  ghost predicate CoversRows(occ: Occupancy, r: nat, start: nat, cell: Cell, n: nat) {
    && n <= cell.rowspan
    && (forall x: nat, c: nat {:trigger Slot(x, c) in occ} ::
          r <= x < r + n && start <= c < start + cell.colspan ==> Slot(x, c) in occ)
    && (n < cell.rowspan ==> exists x: nat, c: nat {:trigger Slot(x, c) in occ} ::
          x == r + n && start <= c < start + cell.colspan && Slot(x, c) !in occ)
  }

  lemma OverlapCovers(occ: Occupancy, r: nat, start: nat, cell: Cell)
    ensures CoversRows(occ, r, start, cell, OverlapRows(occ, r, start, cell, 0))
    ensures forall n: nat :: CoversRows(occ, r, start, cell, n) ==> n == OverlapRows(occ, r, start, cell, 0)
  {
    var n := OverlapRows(occ, r, start, cell, 0);
    if n < cell.rowspan {
      var x: nat := r + n;
      assert !OpenUnder(occ, x, start, cell.colspan);
      var c :| start <= c < start + cell.colspan && Slot(x, c) !in occ;
    }
    forall x: nat, c: nat {:trigger Slot(x, c) in occ} | r <= x < r + n && start <= c < start + cell.colspan
      ensures Slot(x, c) in occ
    {
      assert OpenUnder(occ, x, start, cell.colspan);
    }
    forall m: nat | CoversRows(occ, r, start, cell, m) ensures m == n {
      OneCover(occ, r, start, cell, m, n);
    }
  }

  lemma OneCover(occ: Occupancy, r: nat, start: nat, cell: Cell, m: nat, n: nat)
    requires CoversRows(occ, r, start, cell, m) && CoversRows(occ, r, start, cell, n)
    ensures m == n
  {
  }

  // A cell is clipped exactly if it is blank, spans several rows, and open slots cover its first
  // row, and all of it or so that a row of the table is left for the rest.
  lemma ClipsMeans(occ: Occupancy, r: nat, start: nat, cell: Cell, height: nat)
    ensures Clips(occ, r, start, cell, height) <==>
      && cell.rowspan >= 2 && cell.colspan >= 1 && (forall i :: 0 <= i < |cell.content| ==> !cell.content[i].semantic)
      && exists n: nat :: CoversRows(occ, r, start, cell, n) && n >= 1 && (n == cell.rowspan || r + n < height)
  {
    hide CoversRows;
    OverlapCovers(occ, r, start, cell);
  }

  // The part of cell k below the n rows covered is what m moves.
  ghost predicate IsMove(occ: Occupancy, r: nat, row: Row, starts: seq<nat>, height: nat, m: Move, k: nat, n: nat)
    requires |row| == |starts|
  {
    && k < |row| && Clips(occ, r, starts[k], row[k], height) && CoversRows(occ, r, starts[k], row[k], n)
    && n < row[k].rowspan && m == Move(r + n, starts[k], row[k].(rowspan := row[k].rowspan - n))
  }

  lemma MoveOfRest(occ: Occupancy, r: nat, row: Row, starts: seq<nat>, height: nat, m: Move, k: nat, n: nat)
    requires |row| == |starts| && row != []
    ensures IsMove(occ, r, row[1..], starts[1..], height, m, k, n) <==>
      IsMove(occ, r, row, starts, height, m, k + 1, n)
  {
    hide Clips, CoversRows;
    if k + 1 < |row| {
      assert row[1..][k] == row[k + 1] && starts[1..][k] == starts[k + 1];
    }
  }

  lemma MoveOfFirst(occ: Occupancy, r: nat, row: Row, starts: seq<nat>, height: nat, m: Move)
    requires |row| == |starts| && row != []
    ensures var n := OverlapRows(occ, r, starts[0], row[0], 0);
      (exists n: nat :: IsMove(occ, r, row, starts, height, m, 0, n)) <==>
      Clips(occ, r, starts[0], row[0], height) && n < row[0].rowspan
      && m == Move(r + n, starts[0], row[0].(rowspan := row[0].rowspan - n))
  {
    hide Clips, CoversRows, OverlapRows;
    OverlapCovers(occ, r, starts[0], row[0]);
    var n := OverlapRows(occ, r, starts[0], row[0], 0);
    if Clips(occ, r, starts[0], row[0], height) && n < row[0].rowspan
       && m == Move(r + n, starts[0], row[0].(rowspan := row[0].rowspan - n)) {
      assert IsMove(occ, r, row, starts, height, m, 0, n);
    }
  }

  // What is moved of a row are the parts of its clipped cells that nothing covers, each to the
  // first row where it is not covered, in its columns.
  lemma {:induction false} MovesMeans(occ: Occupancy, r: nat, row: Row, starts: seq<nat>, height: nat, m: Move)
    requires |row| == |starts|
    ensures m in ClipMoves(occ, r, row, starts, height) <==>
      exists k: nat, n: nat :: IsMove(occ, r, row, starts, height, m, k, n)
  {
    hide Clips, CoversRows, OverlapRows, IsMove;
    if row == [] {
      NoMove(occ, r, height, m);
    } else {
      MoveOfFirst(occ, r, row, starts, height, m);
      MovesMeans(occ, r, row[1..], starts[1..], height, m);
      forall k: nat, n: nat
        ensures IsMove(occ, r, row[1..], starts[1..], height, m, k, n) <==>
          IsMove(occ, r, row, starts, height, m, k + 1, n)
      {
        MoveOfRest(occ, r, row, starts, height, m, k, n);
      }
      hide ClipMoves;
      if k: nat, n: nat :| IsMove(occ, r, row, starts, height, m, k, n) {
        if k > 0 {
          var before: nat := k - 1;
          assert IsMove(occ, r, row[1..], starts[1..], height, m, before, n);
        }
      }
    }
  }

  lemma NoMove(occ: Occupancy, r: nat, height: nat, m: Move)
    ensures forall k: nat, n: nat :: !IsMove(occ, r, [], [], height, m, k, n)
  {
  }

  ghost function CellsTo(moves: seq<Move>, t: nat): multiset<Cell> {
    if moves == [] then multiset{}
    else CellsTo(moves[1..], t) + if moves[0].row == t then multiset{moves[0].cell} else multiset{}
  }

  lemma {:induction false} CellsOfInsert(x: Move, s: seq<Move>, t: nat)
    ensures CellsTo(InsertMove(x, s), t) == CellsTo(s, t) + if x.row == t then multiset{x.cell} else multiset{}
  {
    if !(s == [] || Before(x, s[0])) {
      CellsOfInsert(x, s[1..], t);
      assert InsertMove(x, s)[0] == s[0] && InsertMove(x, s)[1..] == InsertMove(x, s[1..]);
    } else {
      assert ([x] + s)[1..] == s;
    }
  }

  lemma {:induction false} CellsOfSort(s: seq<Move>, t: nat)
    ensures CellsTo(SortMoves(s), t) == CellsTo(s, t)
  {
    if s != [] {
      CellsOfSort(s[1..], t);
      CellsOfInsert(s[0], SortMoves(s[1..]), t);
    }
  }

  lemma {:induction false} InsertAllCells(rows: seq<Row>, moves: seq<Move>, t: nat)
    requires t < |rows| && forall m :: m in moves ==> m.row < |rows|
    ensures multiset(InsertAll(rows, moves)[t]) == multiset(rows[t]) + CellsTo(moves, t)
    decreases |moves|
  {
    hide RowStarts, InsertIndex;
    if moves != [] {
      var m := moves[0];
      var row, i := rows[m.row], InsertIndex(RowStarts(rows, m.row, {}), m.start);
      assert row == row[..i] + row[i..];
      assert multiset(InsertAt(row, i, m.cell)) == multiset(row) + multiset{m.cell};
      InsertAllCells(InsertBefore(rows, m.row, m.start, m.cell), moves[1..], t);
    }
  }

  // Every row ends with the cells of its own that stay and the parts moved to it, and no others.
  lemma ClipCells(occ: Occupancy, rows: seq<Row>, t: nat)
    requires t < |rows|
    ensures multiset(Clip(occ, rows)[t]) ==
      multiset(ClipRow(occ, t, rows[t], RowStarts(rows, t, {}), |rows|)) + CellsTo(AllMoves(occ, rows, |rows|), t)
  {
    hide AllMoves, ClipRow, RowStarts, InsertAll, SortMoves;
    var moves := AllMoves(occ, rows, |rows|);
    SortedMovesFit(moves, |rows|);
    ClippedRowAt(occ, rows, |rows|, t);
    hide ClipRows;
    InsertAllCells(ClipRows(occ, rows, |rows|), SortMoves(moves), t);
    CellsOfSort(moves, t);
  }

  lemma {:induction false} ClippedRowAt(occ: Occupancy, rows: seq<Row>, upTo: nat, r: nat)
    requires r < upTo <= |rows|
    ensures ClipRows(occ, rows, upTo)[r] == ClipRow(occ, r, rows[r], RowStarts(rows, r, {}), |rows|)
  {
    hide ClipRow, RowStarts;
    if r < upTo - 1 {
      ClippedRowAt(occ, rows, upTo - 1, r);
    }
  }

  // The columns of the cells that stay.
  function KeptStarts(occ: Occupancy, r: nat, row: Row, starts: seq<nat>, height: nat): (s: seq<nat>)
    requires |row| == |starts|
    ensures |s| == |ClipRow(occ, r, row, starts, height)|
  {
    if row == [] then [] else
      (if Clips(occ, r, starts[0], row[0], height) then [] else [starts[0]])
      + KeptStarts(occ, r, row[1..], starts[1..], height)
  }

  // Every cell that stays starts in a free slot.
  ghost predicate StartFree(occ: Occupancy, r: nat, row: Row, starts: seq<nat>, height: nat)
    requires |row| == |starts|
  {
    forall k {:trigger starts[k]} :: 0 <= k < |row| && !Clips(occ, r, starts[k], row[k], height) ==>
      Slot(r, starts[k]) !in occ
  }

  ghost predicate AllStartFree(occ: Occupancy, rows: seq<Row>) {
    forall r: nat {:trigger RowStarts(rows, r, {})} :: r < |rows| ==>
      StartFree(occ, r, rows[r], RowStarts(rows, r, {}), |rows|)
  }

  lemma {:induction false} FreeStarts(occ: Occupancy, r: nat, row: Row, starts: seq<nat>, height: nat)
    requires |row| == |starts|
    requires forall c {:trigger c in KeptStarts(occ, r, row, starts, height)} ::
      c in KeptStarts(occ, r, row, starts, height) ==> Slot(r, c) !in occ
    ensures StartFree(occ, r, row, starts, height)
  {
    hide Clips;
    if row != [] {
      var rest := KeptStarts(occ, r, row[1..], starts[1..], height);
      assert forall c :: c in rest ==> c in KeptStarts(occ, r, row, starts, height);
      FreeStarts(occ, r, row[1..], starts[1..], height);
      forall k | 0 <= k < |row| && !Clips(occ, r, starts[k], row[k], height) ensures Slot(r, starts[k]) !in occ {
        if k == 0 {
          assert starts[0] in KeptStarts(occ, r, row, starts, height);
        } else {
          assert starts[1..][k - 1] == starts[k];
        }
      }
    }
  }

  // A clipped cell of which nothing is moved lies whole under what is open.
  lemma ClippedIsUnder(occ: Occupancy, r: nat, row: Row, starts: seq<nat>, height: nat)
    requires |row| == |starts| && row != [] && ClipMoves(occ, r, row, starts, height) == []
    requires Clips(occ, r, starts[0], row[0], height)
    ensures row[0].rowspan >= 1 && Block(starts[0], row[0]) <= Shift(occ, r)
  {
    var n := OverlapRows(occ, r, starts[0], row[0], 0);
    assert n == row[0].rowspan;
    forall s | s in Block(starts[0], row[0]) ensures s in Shift(occ, r) {
      assert OpenUnder(occ, r + s.row, starts[0], row[0].colspan);
    }
  }

  // The cursor of what stays lags behind by open columns only.
  ghost predicate Lags(all: set<nat>, lag: nat, c: nat) {
    lag <= c && forall k: nat {:trigger k in all} :: lag <= k < c ==> k in all
  }

  lemma LagsOver(inh: set<nat>, open: Occupancy, all: set<nat>, lag: nat, c: nat, cell: Cell)
    requires all == inh + RowCols(open, 0) && Lags(all, lag, c) && cell.rowspan >= 1
    requires Block(NextFree(inh, c), cell) <= open
    ensures Lags(all, lag, NextFree(inh, c) + cell.colspan)
  {
    var start := NextFree(inh, c);
    forall k: nat | lag <= k < start + cell.colspan ensures k in all {
      if k >= start {
        assert Slot(0, k) in Block(start, cell);
      }
    }
  }

  lemma LagsTo(inh: set<nat>, all: set<nat>, lag: nat, c: nat)
    requires inh <= all && Lags(all, lag, c) && NextFree(inh, c) !in all
    ensures NextFree(all, lag) == NextFree(inh, c)
  {
  }

  lemma RestAlike(occ: Occupancy, r: nat, row: Row, starts: seq<nat>, height: nat)
    requires |row| == |starts| && row != [] && StartFree(occ, r, row, starts, height)
    requires ClipMoves(occ, r, row, starts, height) == []
    ensures StartFree(occ, r, row[1..], starts[1..], height)
    ensures ClipMoves(occ, r, row[1..], starts[1..], height) == []
    ensures !Clips(occ, r, starts[0], row[0], height) ==> Slot(r, starts[0]) !in occ
  {
    hide Clips, OverlapRows;
    assert forall k :: 0 <= k < |row| - 1 ==> row[1..][k] == row[k + 1] && starts[1..][k] == starts[k + 1];
  }

  lemma NoLag(all: set<nat>, c: nat)
    ensures Lags(all, c, c)
  {
  }

  lemma ClippedFirst(occ: Occupancy, r: nat, row: Row, starts: seq<nat>, height: nat)
    requires |row| == |starts| && row != [] && Clips(occ, r, starts[0], row[0], height)
    ensures ClipRow(occ, r, row, starts, height) == ClipRow(occ, r, row[1..], starts[1..], height)
    ensures KeptStarts(occ, r, row, starts, height) == KeptStarts(occ, r, row[1..], starts[1..], height)
  {
    hide Clips;
  }

  lemma KeptFirst(occ: Occupancy, r: nat, row: Row, starts: seq<nat>, height: nat, all: set<nat>, lag: nat)
    requires |row| == |starts| && row != [] && !Clips(occ, r, starts[0], row[0], height)
    requires NextFree(all, lag) == starts[0]
    ensures var rest, next := ClipRow(occ, r, row[1..], starts[1..], height), starts[0] + row[0].colspan;
      var kept := ClipRow(occ, r, row, starts, height);
      && KeptStarts(occ, r, row, starts, height) ==
         [starts[0]] + KeptStarts(occ, r, row[1..], starts[1..], height)
      && Starts(kept, all, lag) == [starts[0]] + Starts(rest, all, next)
      && PlaceRow(kept, all, lag) == Block(starts[0], row[0]) + PlaceRow(rest, all, next)
  {
    hide Clips, NextFree, Block;
    var rest := ClipRow(occ, r, row[1..], starts[1..], height);
    assert ClipRow(occ, r, row, starts, height) == [row[0]] + rest;
    assert ([row[0]] + rest)[1..] == rest;
  }

  // Slots taken in row r, with those open there.
  ghost function WithOpen(occ: Occupancy, r: nat, taken: Occupancy): Occupancy {
    Shift(occ, r) + taken
  }

  lemma SumWithin(occ: Occupancy, r: nat, a: Occupancy, b: Occupancy)
    requires a <= Shift(occ, r)
    ensures WithOpen(occ, r, a + b) == WithOpen(occ, r, b)
  {
  }

  lemma SumSwap(occ: Occupancy, r: nat, a: Occupancy, b: Occupancy, b': Occupancy)
    requires WithOpen(occ, r, b) == WithOpen(occ, r, b')
    ensures WithOpen(occ, r, a + b) == WithOpen(occ, r, a + b')
  {
    var open := Shift(occ, r);
    assert open + (a + b) == a + (open + b);
    assert open + (a + b') == a + (open + b');
  }

  // What stays of the row comes to the same columns and takes the same slots beside those open.
  ghost predicate LaidAlike(occ: Occupancy, r: nat, row: Row, inh: set<nat>, all: set<nat>, c: nat, lag: nat,
                            height: nat)
  {
    var starts := Starts(row, inh, c);
    var kept := ClipRow(occ, r, row, starts, height);
    && Starts(kept, all, lag) == KeptStarts(occ, r, row, starts, height)
    && WithOpen(occ, r, PlaceRow(kept, all, lag)) == WithOpen(occ, r, PlaceRow(row, inh, c))
  }

  lemma FirstPlaced(row: Row, inh: set<nat>, c: nat)
    requires row != []
    ensures var start := NextFree(inh, c);
      var next := start + row[0].colspan;
      && Starts(row, inh, c)[0] == start && Starts(row, inh, c)[1..] == Starts(row[1..], inh, next)
      && PlaceRow(row, inh, c) == Block(start, row[0]) + PlaceRow(row[1..], inh, next)
  {
    hide NextFree, Block;
  }

  lemma FirstClipped(occ: Occupancy, r: nat, row: Row, inh: set<nat>, all: set<nat>, c: nat, lag: nat, height: nat)
    requires row != [] && Clips(occ, r, NextFree(inh, c), row[0], height)
    requires Block(NextFree(inh, c), row[0]) <= Shift(occ, r)
    requires LaidAlike(occ, r, row[1..], inh, all, NextFree(inh, c) + row[0].colspan, lag, height)
    ensures LaidAlike(occ, r, row, inh, all, c, lag, height)
  {
    hide NextFree, Block, Clips, Starts, PlaceRow, ClipRow, KeptStarts, WithOpen;
    var start, starts := NextFree(inh, c), Starts(row, inh, c);
    FirstPlaced(row, inh, c);
    ClippedFirst(occ, r, row, starts, height);
    SumWithin(occ, r, Block(start, row[0]), PlaceRow(row[1..], inh, start + row[0].colspan));
  }

  lemma FirstKept(occ: Occupancy, r: nat, row: Row, inh: set<nat>, all: set<nat>, c: nat, lag: nat, next: nat,
                  height: nat)
    requires row != [] && !Clips(occ, r, NextFree(inh, c), row[0], height) && NextFree(all, lag) == NextFree(inh, c)
    requires next == NextFree(inh, c) + row[0].colspan
    requires LaidAlike(occ, r, row[1..], inh, all, next, next, height)
    ensures LaidAlike(occ, r, row, inh, all, c, lag, height)
  {
    hide NextFree, Block, Clips, Starts, PlaceRow, ClipRow, KeptStarts, WithOpen;
    var starts := Starts(row, inh, c);
    FirstPlaced(row, inh, c);
    var first := Block(starts[0], row[0]);
    var rest := ClipRow(occ, r, row[1..], starts[1..], height);
    KeptFirst(occ, r, row, starts, height, all, lag);
    var kept := ClipRow(occ, r, row, starts, height);
    assert Starts(kept, all, lag) == KeptStarts(occ, r, row, starts, height);
    SumSwap(occ, r, first, PlaceRow(row[1..], inh, next), PlaceRow(rest, all, next));
    assert WithOpen(occ, r, PlaceRow(kept, all, lag)) == WithOpen(occ, r, PlaceRow(row, inh, c));
  }

  lemma NothingLaid(occ: Occupancy, r: nat, inh: set<nat>, all: set<nat>, c: nat, lag: nat, height: nat)
    ensures LaidAlike(occ, r, [], inh, all, c, lag, height)
  {
  }

  // One row, laid out around all that is open.
  lemma {:induction false} KeptRowStays(occ: Occupancy, r: nat, row: Row, inh: set<nat>, all: set<nat>, c: nat,
                                        lag: nat, height: nat)
    requires all == inh + RowCols(Shift(occ, r), 0) && Lags(all, lag, c)
    requires ClipMoves(occ, r, row, Starts(row, inh, c), height) == []
    requires StartFree(occ, r, row, Starts(row, inh, c), height)
    ensures LaidAlike(occ, r, row, inh, all, c, lag, height)
  {
    hide NextFree, OverlapRows, RowCols, Lags, Block, Clips, ClipMoves, StartFree, LaidAlike;
    if row == [] {
      NothingLaid(occ, r, inh, all, c, lag, height);
    } else {
      var start, starts := NextFree(inh, c), Starts(row, inh, c);
      var next := start + row[0].colspan;
      assert starts[0] == start && starts[1..] == Starts(row[1..], inh, next);
      RestAlike(occ, r, row, starts, height);
      if Clips(occ, r, start, row[0], height) {
        ClippedIsUnder(occ, r, row, starts, height);
        LagsOver(inh, Shift(occ, r), all, lag, c, row[0]);
        KeptRowStays(occ, r, row[1..], inh, all, next, lag, height);
        FirstClipped(occ, r, row, inh, all, c, lag, height);
      } else {
        TopOfShift(occ, r);
        LagsTo(inh, all, lag, c);
        NoLag(all, next);
        KeptRowStays(occ, r, row[1..], inh, all, next, next, height);
        FirstKept(occ, r, row, inh, all, c, lag, next, height);
      }
    }
  }

  // ------------------------------------------------------ the whole table

  lemma {:induction false} NoMovesAt(occ: Occupancy, rows: seq<Row>, upTo: nat, r: nat)
    requires r < upTo <= |rows| && AllMoves(occ, rows, upTo) == []
    ensures ClipMoves(occ, r, rows[r], RowStarts(rows, r, {}), |rows|) == []
    ensures ClipRows(occ, rows, upTo)[r] == ClipRow(occ, r, rows[r], RowStarts(rows, r, {}), |rows|)
  {
    hide RowStarts, ClipRow, ClipMoves;
    if r < upTo - 1 {
      NoMovesAt(occ, rows, upTo - 1, r);
    }
  }

  lemma NothingMoved(occ: Occupancy, rows: seq<Row>)
    requires AllMoves(occ, rows, |rows|) == []
    ensures Clip(occ, rows) == ClipRows(occ, rows, |rows|)
  {
    hide ClipRows, AllMoves;
    assert SortMoves([]) == [];
  }

  lemma NothingScanned(occ: Occupancy, rows: seq<Row>)
    ensures Carry(rows[..0], occ) == occ && Shift(occ, 0) == occ
  {
    assert rows[..0] == [];
  }

  lemma {:induction false} OpenStays(occ: Occupancy, rows: seq<Row>, r: nat)
    requires r <= |rows|
    ensures Shift(occ, r) <= Carry(rows[..r], occ)
  {
    hide Carry, Advance;
    if r == 0 {
      NothingScanned(occ, rows);
    } else {
      OpenStays(occ, rows, r - 1);
      CarrySnoc(rows, r - 1, occ);
      ShiftShift(occ, r - 1, 1);
      AdvanceKeeps(Shift(occ, r - 1), Carry(rows[..r - 1], occ), rows[r - 1]);
    }
  }

  lemma AdvanceKeeps(open: Occupancy, f: Occupancy, row: Row)
    requires open <= f
    ensures Shift(open, 1) <= Advance(f, row)
  {
    hide PlaceRow;
  }

  lemma TopOfShift(occ: Occupancy, r: nat)
    ensures forall c: nat :: Slot(r, c) in occ <==> c in RowCols(Shift(occ, r), 0)
  {
  }

  lemma RowOfClip(occ: Occupancy, rows: seq<Row>, r: nat)
    requires r < |rows| && AllMoves(occ, rows, |rows|) == [] && AllStartFree(occ, rows)
    requires Carry(Clip(occ, rows)[..r], occ) == Carry(rows[..r], {}) + Shift(occ, r)
    ensures RowStarts(Clip(occ, rows), r, occ) == KeptStarts(occ, r, rows[r], RowStarts(rows, r, {}), |rows|)
    ensures Land(Carry(Clip(occ, rows)[..r], occ), Clip(occ, rows)[r]) ==
      Land(Carry(rows[..r], {}), rows[r]) + Shift(occ, r)
  {
    var f, g := Carry(rows[..r], {}), Carry(Clip(occ, rows)[..r], occ);
    NothingMoved(occ, rows);
    NoMovesAt(occ, rows, |rows|, r);
    assert StartFree(occ, r, rows[r], RowStarts(rows, r, {}), |rows|);
    hide AllStartFree, StartFree, ClipMoves, ClipRow, Clip, ClipRows, AllMoves, KeptStarts, Carry, PlaceRow, Starts;
    var inh, all := RowCols(f, 0), RowCols(g, 0);
    assert all == inh + RowCols(Shift(occ, r), 0);
    NoLag(all, 0);
    KeptRowStays(occ, r, rows[r], inh, all, 0, 0, |rows|);
  }

  lemma {:induction false} ClipCarries(occ: Occupancy, rows: seq<Row>, r: nat)
    requires r <= |rows| && AllMoves(occ, rows, |rows|) == [] && AllStartFree(occ, rows)
    ensures Carry(Clip(occ, rows)[..r], occ) == Carry(rows[..r], {}) + Shift(occ, r)
  {
    var clip := Clip(occ, rows);
    if r == 0 {
      NothingScanned(occ, clip);
      NothingScanned({}, rows);
    } else {
      ClipCarries(occ, rows, r - 1);
      RowOfClip(occ, rows, r - 1);
      CarrySnoc(rows, r - 1, {});
      CarrySnoc(clip, r - 1, occ);
      hide Carry, Clip, AllMoves, AllStartFree, RowStarts, KeptStarts, Land;
      ShiftShift(occ, r - 1, 1);
      ShiftSum(Land(Carry(rows[..r - 1], {}), rows[r - 1]), Shift(occ, r - 1));
    }
  }

  lemma ShiftSum(a: Occupancy, b: Occupancy)
    ensures Shift(a + b, 1) == Shift(a, 1) + Shift(b, 1)
  {
  }

  // The cells that stay in row r come to the columns they had.
  ghost predicate RowStays(occ: Occupancy, rows: seq<Row>, r: nat)
    requires r < |rows|
  {
    RowStarts(Clip(occ, rows), r, occ) == KeptStarts(occ, r, rows[r], RowStarts(rows, r, {}), |rows|)
  }

  lemma StaysOnlyIfFree(occ: Occupancy, rows: seq<Row>, r: nat)
    requires r < |rows| && RowStays(occ, rows, r)
    ensures StartFree(occ, r, rows[r], RowStarts(rows, r, {}), |rows|)
  {
    var clip := Clip(occ, rows);
    OpenStays(occ, clip, r);
    StartsSorted(clip[r], Inherited(clip, r, occ), 0);
    hide Clip, StartFree, Carry, Starts, ClipRow;
    TopOfShift(occ, r);
    hide KeptStarts;
    FreeStarts(occ, r, rows[r], RowStarts(rows, r, {}), |rows|);
  }

  // When the open rowspans cover every clipped placeholder whole, the rest of the table keeps
  // its columns below them exactly when none of it starts in an open slot; the rows then take
  // the slots they took before, with the open ones, and leave the same rowspans open.
  lemma ClipIsExact(occ: Occupancy, rows: seq<Row>)
    requires AllMoves(occ, rows, |rows|) == []
    ensures (forall r: nat {:trigger RowStays(occ, rows, r)} :: r < |rows| ==> RowStays(occ, rows, r)) <==>
      AllStartFree(occ, rows)
    ensures AllStartFree(occ, rows) ==>
      && Carry(Clip(occ, rows), occ) == Carry(rows, {}) + Shift(occ, |rows|)
      && forall r: nat {:trigger rows[..r]} :: r < |rows| ==>
           Land(Carry(Clip(occ, rows)[..r], occ), Clip(occ, rows)[r]) ==
             Land(Carry(rows[..r], {}), rows[r]) + Shift(occ, r)
  {
    hide Carry, Clip, AllMoves, Land, KeptStarts, StartFree;
    if AllStartFree(occ, rows) {
      forall r: nat | r < |rows|
        ensures RowStays(occ, rows, r)
        ensures Land(Carry(Clip(occ, rows)[..r], occ), Clip(occ, rows)[r]) ==
          Land(Carry(rows[..r], {}), rows[r]) + Shift(occ, r)
      {
        hide AllStartFree;
        ClipCarries(occ, rows, r);
        RowOfClip(occ, rows, r);
      }
      ClipCarries(occ, rows, |rows|);
      assert rows[..|rows|] == rows && Clip(occ, rows)[..|rows|] == Clip(occ, rows);
    }
    if forall r: nat {:trigger RowStays(occ, rows, r)} :: r < |rows| ==> RowStays(occ, rows, r) {
      forall r: nat | r < |rows| ensures StartFree(occ, r, rows[r], RowStarts(rows, r, {}), |rows|) {
        hide RowStays;
        StaysOnlyIfFree(occ, rows, r);
      }
    }
  }
}
