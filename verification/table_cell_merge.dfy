/**
 Moving the content of the first data row into the aligned cells of the last row
 of the previous page's table.
 */
module TableCellMerge {
  import opened TableGrid
  import opened TableLayout
  import opened TableCarry
  import opened TableCarryLayout

  // --------------------------------------------------------------- content

  function Semantic(content: seq<Node>): seq<Node> {
    if content == [] then [] else
      (if content[0].semantic then [content[0]] else []) + Semantic(content[1..])
  }

  // The semantic nodes of a row, in document order.
  function RowSemantic(row: Row): seq<Node> {
    if row == [] then [] else Semantic(row[0].content) + RowSemantic(row[1..])
  }

  function RowsSemantic(rows: seq<Row>): (r: seq<seq<Node>>)
    ensures |r| == |rows| && forall i {:trigger r[i]} {:trigger rows[i]} :: 0 <= i < |rows| ==>
      r[i] == RowSemantic(rows[i])
  {
    seq(|rows|, i requires 0 <= i < |rows| => RowSemantic(rows[i]))
  }

  // All semantic nodes of a list of rows, however they are distributed.
  function RowsBag(rows: seq<Row>): multiset<Node> {
    if rows == [] then multiset{} else multiset(RowSemantic(rows[0])) + RowsBag(rows[1..])
  }

  lemma {:induction false} RowSemanticSum(a: Row, b: Row)
    ensures RowSemantic(a + b) == RowSemantic(a) + RowSemantic(b)
  {
    if a == [] {
      assert a + b == b;
    } else {
      assert (a + b)[0] == a[0] && (a + b)[1..] == a[1..] + b;
      RowSemanticSum(a[1..], b);
    }
  }

  lemma {:induction false} RowsBagSum(a: seq<Row>, b: seq<Row>)
    ensures RowsBag(a + b) == RowsBag(a) + RowsBag(b)
  {
    if a == [] {
      assert a + b == b;
    } else {
      assert (a + b)[0] == a[0] && (a + b)[1..] == a[1..] + b;
      RowsBagSum(a[1..], b);
    }
  }

  lemma {:induction false} SemanticEmpty(content: seq<Node>)
    ensures Semantic(content) == [] <==> forall i :: 0 <= i < |content| ==> !content[i].semantic
  {
    if content != [] {
      SemanticEmpty(content[1..]);
      assert forall i :: 1 <= i < |content| ==> content[i] == content[1..][i - 1];
    }
  }

  lemma {:induction false} RowSemanticEmpty(row: Row)
    ensures RowSemantic(row) == [] <==> !RowHasSemanticContent(row)
  {
    if row != [] {
      SemanticEmpty(row[0].content);
      RowSemanticEmpty(row[1..]);
      assert forall k :: 1 <= k < |row| ==> row[k] == row[1..][k - 1];
    }
  }

  // Inserting a blank cell changes no row's semantic content.
  lemma ConsSemantic(cell: Cell, row: Row)
    ensures RowSemantic([cell] + row) == Semantic(cell.content) + RowSemantic(row)
  {
    assert ([cell] + row)[1..] == row;
  }

  lemma InsertSplits(row: Row, i: nat, cell: Cell)
    requires i <= |row|
    ensures row == row[..i] + row[i..] && InsertAt(row, i, cell) == row[..i] + ([cell] + row[i..])
  {
  }

  lemma InsertBlank(row: Row, i: nat, cell: Cell)
    requires i <= |row| && !HasSemanticContent(cell)
    ensures RowSemantic(InsertAt(row, i, cell)) == RowSemantic(row)
  {
    SemanticEmpty(cell.content);
    hide RowSemantic, Semantic, InsertAt;
    var a, b := row[..i], row[i..];
    InsertSplits(row, i, cell);
    ConsSemantic(cell, b);
    RowSemanticSum(a, b);
    RowSemanticSum(a, [cell] + b);
  }

  lemma {:induction false} InsertAllBlank(rows: seq<Row>, moves: seq<Move>)
    requires forall m :: m in moves ==> m.row < |rows| && !HasSemanticContent(m.cell)
    ensures RowsSemantic(InsertAll(rows, moves)) == RowsSemantic(rows)
    decreases |moves|
  {
    hide HasSemanticContent, RowSemantic;
    if moves != [] {
      var m := moves[0];
      InsertBlank(rows[m.row], InsertIndex(RowStarts(rows, m.row, {}), m.start), m.cell);
      assert RowsSemantic(InsertBefore(rows, m.row, m.start, m.cell)) == RowsSemantic(rows);
      InsertAllBlank(InsertBefore(rows, m.row, m.start, m.cell), moves[1..]);
    }
  }

  lemma CarryDownKeepsContent(rows: seq<Row>, i: nat)
    requires i < |rows|
    ensures RowsSemantic(CarryDown(rows, i)) == RowsSemantic(rows)
    ensures CarryDown(rows, i)[..i + 1] == rows[..i + 1]
  {
    if i + 1 < |rows| {
      var starts := RowStarts(rows, i, {});
      var k := CarriedCells(rows[i], starts, i + 1);
      SortKeepsRow(k, i + 1);
      forall m | m in SortMoves(k) ensures !HasSemanticContent(m.cell) {
        assert m in multiset(SortMoves(k));
        CarriedMembers(rows[i], starts, i + 1, m);
      }
      InsertAllBlank(rows, SortMoves(k));
      InsertAllTouches(rows, SortMoves(k), i + 1);
    }
  }

  lemma {:induction false} InsertAllTouches(rows: seq<Row>, moves: seq<Move>, t: nat)
    requires t < |rows| && forall m :: m in moves ==> m.row == t
    ensures InsertAll(rows, moves)[..t] == rows[..t] && InsertAll(rows, moves)[t + 1..] == rows[t + 1..]
    decreases |moves|
  {
    if moves != [] {
      InsertAllTouches(InsertBefore(rows, moves[0].row, moves[0].start, moves[0].cell), moves[1..], t);
    }
  }

  // ------------------------------------------------- visual column -> cell

  function SpanMap(start: nat, n: nat, k: nat): (m: map<nat, nat>)
    ensures m.Keys == Interval(start, n) && forall c :: c in m ==> m[c] == k
  {
    map c | c in Interval(start, n) :: k
  }

  lemma SpanMapStep(m: map<nat, nat>, start: nat, n: nat, k: nat)
    ensures (m + SpanMap(start, n, k))[start + n := k] == m + SpanMap(start, n + 1, k)
  {
  }

  function ColumnMap(row: Row, starts: seq<nat>): map<nat, nat>
    requires |row| == |starts|
  {
    if row == [] then map[] else
      var n := |row| - 1;
      ColumnMap(row[..n], starts[..n]) + SpanMap(starts[n], row[n].colspan, n)
  }

  ghost predicate Successive(row: Row, starts: seq<nat>)
    requires |row| == |starts|
  {
    forall j, k {:trigger starts[j], starts[k]} :: 0 <= j < k < |row| ==> starts[j] + row[j].colspan <= starts[k]
  }

  lemma SuccessivePrefix(row: Row, starts: seq<nat>)
    requires |row| == |starts| > 0 && Successive(row, starts)
    ensures Successive(row[..|row| - 1], starts[..|row| - 1])
    ensures forall k :: 0 <= k < |row| - 1 ==> starts[k] + row[k].colspan <= starts[|row| - 1]
  {
    var n := |row| - 1;
    assert forall k :: 0 <= k < n ==> starts[..n][k] == starts[k] && row[..n][k] == row[k];
  }

  // Each column leads to the one cell whose span covers it.
  lemma {:induction false} ColumnMapMeaning(row: Row, starts: seq<nat>, c: nat, k: nat)
    requires |row| == |starts| && Successive(row, starts) && k < |row|
    ensures c in ColumnMap(row, starts) ==> ColumnMap(row, starts)[c] < |row|
    ensures Spans(starts[k], row[k], c) <==> c in ColumnMap(row, starts) && ColumnMap(row, starts)[c] == k
  {
    var n := |row| - 1;
    SuccessivePrefix(row, starts);
    SpanMapMeaning(starts[n], row[n].colspan, n, c);
    if n > 0 {
      var j := if k < n then k else 0;
      ColumnMapMeaning(row[..n], starts[..n], c, j);
      assert row[..n][j] == row[j] && starts[..n][j] == starts[j];
    }
    ColumnMapLast(row, starts, c);
    hide ColumnMap, SpanMap, Successive;
  }

  // Later spans win where a column is in both.
  lemma ColumnMapLast(row: Row, starts: seq<nat>, c: nat)
    requires |row| == |starts| > 0
    ensures var n := |row| - 1;
      var front, last := ColumnMap(row[..n], starts[..n]), SpanMap(starts[n], row[n].colspan, n);
      && (c in ColumnMap(row, starts) <==> c in front || c in last)
      && (c in ColumnMap(row, starts) ==> ColumnMap(row, starts)[c] == if c in last then last[c] else front[c])
  {
    hide SpanMap;
  }

  lemma SpanMapMeaning(start: nat, n: nat, k: nat, c: nat)
    ensures c in SpanMap(start, n, k) <==> start <= c < start + n
    ensures c in SpanMap(start, n, k) ==> SpanMap(start, n, k)[c] == k
  {
  }

  lemma {:induction false} ColumnMapInRange(row: Row, starts: seq<nat>)
    requires |row| == |starts|
    ensures InRange(ColumnMap(row, starts), |row|)
  {
    if row != [] {
      ColumnMapInRange(row[..|row| - 1], starts[..|row| - 1]);
    }
  }

  lemma ColumnMapStep(row: Row, starts: seq<nat>, k: nat)
    requires k < |row| == |starts|
    ensures ColumnMap(row[..k + 1], starts[..k + 1]) ==
      ColumnMap(row[..k], starts[..k]) + SpanMap(starts[k], row[k].colspan, k)
  {
    hide SpanMap;
    assert row[..k + 1][..k] == row[..k] && starts[..k + 1][..k] == starts[..k];
  }

  method AddSpan(before: map<nat, nat>, start: nat, n: nat, k: nat) returns (m: map<nat, nat>)
    ensures m == before + SpanMap(start, n, k)
  {
    hide SpanMap;
    m := before;
    NoSpan(before, start, k);
    for i := 0 to n
      invariant m == before + SpanMap(start, i, k)
    {
      SpanMapStep(before, start, i, k);
      m := m[start + i := k];
    }
  }

  method VisualColumnToCell(row: Row, starts: seq<nat>) returns (m: map<nat, nat>)
    requires |row| == |starts|
    ensures m == ColumnMap(row, starts)
  {
    m := map[];
    assert row[..0] == [];
    for k := 0 to |row|
      invariant m == ColumnMap(row[..k], starts[..k])
    {
      hide ColumnMap, SpanMap;
      ColumnMapStep(row, starts, k);
      m := AddSpan(m, starts[k], row[k].colspan, k);
    }
    assert row[..|row|] == row && starts[..|row|] == starts;
  }

  lemma NoSpan(m: map<nat, nat>, start: nat, k: nat)
    ensures m + SpanMap(start, 0, k) == m
  {
  }

  // --------------------------------------------------------- the transfers

  predicate InRange(v: map<nat, nat>, n: nat) {
    forall c :: c in v ==> v[c] < n
  }

  predicate Aligned(v1: map<nat, nat>, v2: map<nat, nat>, flags: seq<int>, vi: nat) {
    vi < |flags| && flags[vi] == 1 && vi in v1 && vi in v2
  }

  function MoveContent(dst: Row, src: Row, i: nat, j: nat): (r: (Row, Row))
    requires i < |dst| && j < |src|
  {
    (dst[i := dst[i].(content := dst[i].content + src[j].content)], src[j := src[j].(content := [])])
  }

  // Both rows after the flagged columns from vi on are handled, left to right.
  function Transfer(dst: Row, src: Row, v1: map<nat, nat>, v2: map<nat, nat>, flags: seq<int>, vi: nat): (r: (Row, Row))
    requires vi <= |flags| && InRange(v1, |dst|) && InRange(v2, |src|)
    ensures |r.0| == |dst| && |r.1| == |src|
    decreases |flags| - vi
  {
    if vi == |flags| then (dst, src)
    else if Aligned(v1, v2, flags, vi) then
      var (d, s) := MoveContent(dst, src, v1[vi], v2[vi]);
      Transfer(d, s, v1, v2, flags, vi + 1)
    else Transfer(dst, src, v1, v2, flags, vi + 1)
  }

  lemma MoveEmpty(dst: Row, src: Row, i: nat, j: nat)
    requires i < |dst| && j < |src| && src[j].content == []
    ensures MoveContent(dst, src, i, j) == (dst, src)
  {
    assert dst[i].content + [] == dst[i].content;
    assert dst[i := dst[i]] == dst && src[j := src[j]] == src;
  }

  // The two loops over the merge flags: the set of handled pairs and the final
  // clearing pass add nothing to the plain left-to-right transfer.
  method TransferCells(dst0: Row, src0: Row, v1: map<nat, nat>, v2: map<nat, nat>, flags: seq<int>)
    returns (dst: Row, src: Row)
    requires InRange(v1, |dst0|) && InRange(v2, |src0|)
    ensures (dst, src) == Transfer(dst0, src0, v1, v2, flags, 0)
  {
    dst, src := dst0, src0;
    var transferredPairs: set<(nat, nat)> := {};
    for vi := 0 to |flags|
      invariant |dst| == |dst0| && |src| == |src0|
      invariant Transfer(dst, src, v1, v2, flags, vi) == Transfer(dst0, src0, v1, v2, flags, 0)
      invariant forall p :: p in transferredPairs ==> p.1 < |src| && src[p.1].content == []
      invariant forall u: nat {:trigger Aligned(v1, v2, flags, u)} :: u < vi && Aligned(v1, v2, flags, u) ==>
        src[v2[u]].content == []
    {
      if flags[vi] == 1 && vi in v1 && vi in v2 {
        var pair := (v1[vi], v2[vi]);
        if pair !in transferredPairs {
          var moved := MoveContent(dst, src, pair.0, pair.1);
          dst, src := moved.0, moved.1;
          transferredPairs := transferredPairs + {pair};
        } else {
          MoveEmpty(dst, src, pair.0, pair.1);
        }
      }
    }
    ghost var done := src;
    var cleared: set<nat> := {};
    for vi := 0 to |flags|
      invariant src == done
    {
      if flags[vi] == 1 && vi in v1 && vi in v2 && v2[vi] !in cleared {
        assert Aligned(v1, v2, flags, vi);
        src := src[v2[vi] := src[v2[vi]].(content := [])];
        cleared := cleared + {v2[vi]};
      }
    }
  }

  // ------------------------------------------- what the transfers amount to

  // vi is the leftmost flagged column that aligns its source cell.
  ghost predicate FirstAligned(v1: map<nat, nat>, v2: map<nat, nat>, flags: seq<int>, vi: nat) {
    Aligned(v1, v2, flags, vi) &&
    forall u: nat {:trigger Aligned(v1, v2, flags, u)} :: u < vi && Aligned(v1, v2, flags, u) ==> v2[u] != v2[vi]
  }

  // What arrives in cell i from column vi on: each source cell once, whole, at its first aligned column.
  ghost function Arrivals(src: Row, v1: map<nat, nat>, v2: map<nat, nat>, flags: seq<int>, i: nat, vi: nat): seq<Node>
    requires vi <= |flags| && InRange(v2, |src|)
    decreases |flags| - vi
  {
    if vi == |flags| then [] else
      (if FirstAligned(v1, v2, flags, vi) && v1[vi] == i then src[v2[vi]].content else [])
      + Arrivals(src, v1, v2, flags, i, vi + 1)
  }

  ghost predicate Emptied(v1: map<nat, nat>, v2: map<nat, nat>, flags: seq<int>, j: nat, upTo: nat) {
    exists u: nat {:trigger Aligned(v1, v2, flags, u)} :: u < upTo && Aligned(v1, v2, flags, u) && v2[u] == j
  }

  ghost predicate Drained(now: Row, src: Row, v1: map<nat, nat>, v2: map<nat, nat>, flags: seq<int>, vi: nat) {
    |now| == |src| && forall j {:trigger now[j]} :: 0 <= j < |src| ==>
      now[j] == (if Emptied(v1, v2, flags, j, vi) then src[j].(content := []) else src[j])
  }

  lemma {:induction false} TransferMeaningFrom(dst: Row, now: Row, src: Row, v1: map<nat, nat>, v2: map<nat, nat>,
                                               flags: seq<int>, vi: nat)
    requires vi <= |flags| && InRange(v1, |dst|) && InRange(v2, |src|) && Drained(now, src, v1, v2, flags, vi)
    ensures var r := Transfer(dst, now, v1, v2, flags, vi);
      && Drained(r.1, src, v1, v2, flags, |flags|)
      && forall i {:trigger r.0[i]} :: 0 <= i < |dst| ==>
           r.0[i] == dst[i].(content := dst[i].content + Arrivals(src, v1, v2, flags, i, vi))
    decreases |flags| - vi
  {
    if vi < |flags| {
      if Aligned(v1, v2, flags, vi) {
        var (d, s) := MoveContent(dst, now, v1[vi], v2[vi]);
        DrainStep(now, s, src, v1, v2, flags, vi);
        TransferMeaningFrom(d, s, src, v1, v2, flags, vi + 1);
        assert FirstAligned(v1, v2, flags, vi) <==> !Emptied(v1, v2, flags, v2[vi], vi);
      } else {
        assert forall j :: Emptied(v1, v2, flags, j, vi + 1) <==> Emptied(v1, v2, flags, j, vi);
        TransferMeaningFrom(dst, now, src, v1, v2, flags, vi + 1);
      }
    }
  }

  lemma DrainStep(now: Row, next: Row, src: Row, v1: map<nat, nat>, v2: map<nat, nat>, flags: seq<int>, vi: nat)
    requires Drained(now, src, v1, v2, flags, vi) && Aligned(v1, v2, flags, vi) && v2[vi] < |src|
    requires next == now[v2[vi] := now[v2[vi]].(content := [])]
    ensures Drained(next, src, v1, v2, flags, vi + 1)
  {
    assert forall j :: j != v2[vi] ==> (Emptied(v1, v2, flags, j, vi + 1) <==> Emptied(v1, v2, flags, j, vi));
    assert Emptied(v1, v2, flags, v2[vi], vi + 1);
  }

  // Every aligned source cell goes, whole and once, to the cell at its first aligned
  // column; every other source cell and every span stays as it was.
  lemma TransferMeaning(dst: Row, src: Row, v1: map<nat, nat>, v2: map<nat, nat>, flags: seq<int>)
    requires InRange(v1, |dst|) && InRange(v2, |src|)
    ensures var r := Transfer(dst, src, v1, v2, flags, 0);
      && Drained(r.1, src, v1, v2, flags, |flags|)
      && forall i {:trigger r.0[i]} :: 0 <= i < |dst| ==>
           r.0[i] == dst[i].(content := dst[i].content + Arrivals(src, v1, v2, flags, i, 0))
  {
    assert forall j :: !Emptied(v1, v2, flags, j, 0);
    TransferMeaningFrom(dst, src, src, v1, v2, flags, 0);
  }

  // All child nodes of a row's cells.
  function RowNodes(row: Row): multiset<Node> {
    if row == [] then multiset{} else multiset(row[0].content) + RowNodes(row[1..])
  }

  lemma {:induction false} UpdateNodes(row: Row, i: nat, cell: Cell)
    requires i < |row|
    ensures RowNodes(row[i := cell]) + multiset(row[i].content) == RowNodes(row) + multiset(cell.content)
  {
    if i == 0 {
      assert row[0 := cell][1..] == row[1..];
    } else {
      UpdateNodes(row[1..], i - 1, cell);
      assert row[i := cell][0] == row[0] && row[i := cell][1..] == row[1..][i - 1 := cell];
      var first, rest := multiset(row[0].content), RowNodes(row[1..][i - 1 := cell]);
      assert row[1..][i - 1] == row[i] && RowNodes(row[i := cell]) == first + rest;
      assert (first + rest) + multiset(row[i].content) == first + (rest + multiset(row[i].content));
    }
  }

  lemma {:induction false} SemanticCount(content: seq<Node>, x: Node)
    ensures multiset(Semantic(content))[x] == if x.semantic then multiset(content)[x] else 0
  {
    if content != [] {
      SemanticCount(content[1..], x);
      assert content == [content[0]] + content[1..];
    }
  }

  lemma {:induction false} RowSemanticCount(row: Row, x: Node)
    ensures multiset(RowSemantic(row))[x] == if x.semantic then RowNodes(row)[x] else 0
  {
    hide Semantic;
    if row != [] {
      SemanticCount(row[0].content, x);
      RowSemanticCount(row[1..], x);
    }
  }

  // Rows with the same child nodes between them have the same semantic ones.
  lemma SameNodesSameSemantic(a: Row, b: Row, c: Row, d: Row)
    requires RowNodes(a) + RowNodes(b) == RowNodes(c) + RowNodes(d)
    ensures multiset(RowSemantic(a)) + multiset(RowSemantic(b)) == multiset(RowSemantic(c)) + multiset(RowSemantic(d))
  {
    hide RowNodes, RowSemantic;
    forall x: Node
      ensures multiset(RowSemantic(a))[x] + multiset(RowSemantic(b))[x] ==
        multiset(RowSemantic(c))[x] + multiset(RowSemantic(d))[x]
    {
      assert RowNodes(a)[x] + RowNodes(b)[x] == (RowNodes(a) + RowNodes(b))[x] == RowNodes(c)[x] + RowNodes(d)[x];
      RowSemanticCount(a, x);
      RowSemanticCount(b, x);
      RowSemanticCount(c, x);
      RowSemanticCount(d, x);
    }
  }

  // No child node is lost or duplicated by the transfers, and so no semantic one.
  lemma TransferConserves(dst: Row, src: Row, v1: map<nat, nat>, v2: map<nat, nat>, flags: seq<int>, vi: nat)
    requires vi <= |flags| && InRange(v1, |dst|) && InRange(v2, |src|)
    ensures var r := Transfer(dst, src, v1, v2, flags, vi);
      && RowNodes(r.0) + RowNodes(r.1) == RowNodes(dst) + RowNodes(src)
      && multiset(RowSemantic(r.0)) + multiset(RowSemantic(r.1)) ==
         multiset(RowSemantic(dst)) + multiset(RowSemantic(src))
  {
    hide RowSemantic, RowNodes, Transfer;
    var r := Transfer(dst, src, v1, v2, flags, vi);
    NodesConserved(dst, src, v1, v2, flags, vi);
    SameNodesSameSemantic(r.0, r.1, dst, src);
  }

  lemma {:induction false} NodesConserved(dst: Row, src: Row, v1: map<nat, nat>, v2: map<nat, nat>, flags: seq<int>,
                                          vi: nat)
    requires vi <= |flags| && InRange(v1, |dst|) && InRange(v2, |src|)
    ensures var r := Transfer(dst, src, v1, v2, flags, vi);
      RowNodes(r.0) + RowNodes(r.1) == RowNodes(dst) + RowNodes(src)
    decreases |flags| - vi
  {
    hide RowNodes;
    if vi < |flags| {
      if Aligned(v1, v2, flags, vi) {
        var i, j := v1[vi], v2[vi];
        var (d, s) := MoveContent(dst, src, i, j);
        MoveConserves(dst, src, i, j);
        NodesConserved(d, s, v1, v2, flags, vi + 1);
      } else {
        NodesConserved(dst, src, v1, v2, flags, vi + 1);
      }
    }
  }

  lemma BagBalance(d': multiset<Node>, s': multiset<Node>, d: multiset<Node>, s: multiset<Node>, x: multiset<Node>,
                   y: multiset<Node>)
    requires d' + x == d + (x + y) && s' + y == s
    ensures d' + s' == d + s
  {
    assert d' == d' + x - x == d + y;
  }

  lemma MoveConserves(dst: Row, src: Row, i: nat, j: nat)
    requires i < |dst| && j < |src|
    ensures var r := MoveContent(dst, src, i, j);
      RowNodes(r.0) + RowNodes(r.1) == RowNodes(dst) + RowNodes(src)
  {
    hide RowNodes;
    var r := MoveContent(dst, src, i, j);
    UpdateNodes(dst, i, r.0[i]);
    UpdateNodes(src, j, r.1[j]);
    BagBalance(RowNodes(r.0), RowNodes(r.1), RowNodes(dst), RowNodes(src), multiset(dst[i].content),
      multiset(src[j].content));
  }
}
