/**
 Assigning text spans to layout blocks, and characters to spans, through an index of grid
 rows. Coordinates are reals. Whatever the row height, the index gives what a search of
 everything would.
 */
module Spans {
  import opened Wrappers
  import opened Counting
  import opened Boxes

  // Conversion to an integer drops the fraction, towards zero.
  function Trunc(x: real): int {
    if x >= 0.0 then x.Floor else -((-x).Floor)
  }

  function Cell(y: real, size: real): int
    requires size > 0.0
  {
    Trunc(y / size)
  }

  lemma CellMonotone(a: real, b: real, size: real)
    requires a <= b && size > 0.0
    ensures Cell(a, size) <= Cell(b, size)
  {
    DivMonotone(a, b, size);
    TruncMonotone(a / size, b / size);
  }

  lemma DivMonotone(a: real, b: real, size: real)
    requires a <= b && size > 0.0
    ensures a / size <= b / size
  {
    assert b / size - a / size == (b - a) / size;
  }

  lemma TruncMonotone(x: real, y: real)
    requires x <= y
    ensures Trunc(x) <= Trunc(y)
  {
  }

  // Boxes that share a height share a grid row.
  lemma SharedCell(a: Box, b: Box, size: real) returns (cell: int)
    requires SharesHeight(a, b) && size > 0.0
    ensures Cell(a.y0, size) <= cell <= Cell(a.y1, size) && Cell(b.y0, size) <= cell <= Cell(b.y1, size)
  {
    var top := MaxR(a.y0, b.y0);
    cell := Cell(top, size);
    CellMonotone(a.y0, top, size);
    CellMonotone(b.y0, top, size);
    CellMonotone(top, a.y1, size);
    CellMonotone(top, b.y1, size);
  }

  // ------------------------------------------------------------ the grid

  predicate Covers(box: Box, cell: int, size: real)
    requires size > 0.0
  {
    Cell(box.y0, size) <= cell <= Cell(box.y1, size)
  }

  // Indices of the boxes that cover the row, lowest first.
  function Row(boxes: seq<Option<Box>>, cell: int, size: real): (r: seq<nat>)
    requires size > 0.0
    ensures Ascending(r, |boxes|)
    ensures forall i: nat {:trigger i in r} ::
      i in r <==> i < |boxes| && boxes[i].Some? && Covers(boxes[i].value, cell, size)
  {
    if boxes == [] then []
    else
      var last := |boxes| - 1;
      Row(boxes[..last], cell, size)
      + if boxes[last].Some? && Covers(boxes[last].value, cell, size) then [last] else []
  }

  function RowOf(grid: map<int, seq<nat>>, cell: int): seq<nat> {
    if cell in grid then grid[cell] else []
  }

  ghost predicate IsGrid(grid: map<int, seq<nat>>, boxes: seq<Option<Box>>, size: real)
    requires size > 0.0
  {
    forall cell: int {:trigger RowOf(grid, cell)} :: RowOf(grid, cell) == Row(boxes, cell, size)
  }

  // Enters every box in each row it covers.
  method BuildGrid(boxes: seq<Option<Box>>, size: real) returns (grid: map<int, seq<nat>>)
    requires size > 0.0
    ensures IsGrid(grid, boxes, size)
  {
    hide IsGrid, Cell;
    grid := map[];
    NoBoxes(size);
    assert boxes[..0] == [];
    for index := 0 to |boxes|
      invariant IsGrid(grid, boxes[..index], size)
    {
      ghost var before := grid;
      if boxes[index].Some? {
        grid := EnterBox(grid, index, Cell(boxes[index].value.y0, size), Cell(boxes[index].value.y1, size));
      }
      GridSnoc(before, grid, boxes, index, size);
    }
    assert boxes[..|boxes|] == boxes;
  }

  method EnterBox(before: map<int, seq<nat>>, index: nat, startCell: int, endCell: int)
    returns (grid: map<int, seq<nat>>)
    ensures forall c: int {:trigger RowOf(grid, c)} ::
      RowOf(grid, c) == RowOf(before, c) + if startCell <= c <= endCell then [index] else []
  {
    grid := before;
    var cell := startCell;
    while cell <= endCell
      invariant startCell <= cell
      invariant forall c: int {:trigger RowOf(grid, c)} ::
        RowOf(grid, c) == RowOf(before, c) + if startCell <= c < cell && c <= endCell then [index] else []
      decreases endCell - cell + 1
    {
      ghost var last := grid;
      grid := grid[cell := RowOf(grid, cell) + [index]];
      assert forall c: int {:trigger RowOf(grid, c)} ::
          RowOf(grid, c) == RowOf(last, c) + if c == cell then [index] else [];
      cell := cell + 1;
    }
  }

  lemma NoBoxes(size: real)
    requires size > 0.0
    ensures IsGrid(map[], [], size)
  {
  }

  lemma GridSnoc(before: map<int, seq<nat>>, grid: map<int, seq<nat>>, boxes: seq<Option<Box>>, index: nat, size: real)
    requires size > 0.0 && index < |boxes| && IsGrid(before, boxes[..index], size)
    requires boxes[index].None? ==> grid == before
    requires boxes[index].Some? ==> forall c: int {:trigger RowOf(grid, c)} ::
      RowOf(grid, c) == RowOf(before, c)
        + if Cell(boxes[index].value.y0, size) <= c <= Cell(boxes[index].value.y1, size) then [index] else []
    ensures IsGrid(grid, boxes[..index + 1], size)
  {
    hide RowOf, Row, Cell;
    forall c: int {:trigger RowOf(grid, c)} ensures RowOf(grid, c) == Row(boxes[..index + 1], c, size) {
      RowSnoc(boxes, index, c, size);
      assert RowOf(before, c) == Row(boxes[..index], c, size);
    }
  }

  lemma RowSnoc(boxes: seq<Option<Box>>, index: nat, cell: int, size: real)
    requires size > 0.0 && index < |boxes|
    ensures Row(boxes[..index + 1], cell, size) ==
      Row(boxes[..index], cell, size)
        + if boxes[index].Some? && Covers(boxes[index].value, cell, size) then [index] else []
  {
    assert boxes[..index + 1][..index] == boxes[..index];
  }

  // ------------------------------------------------------- spans by block

  type Getter = (Box, Box) -> real

  predicate Hits(span: Option<Box>, block: Box, getter: Getter, threshold: real) {
    span.Some? && getter(span.value, block) > threshold
  }

  // Only boxes that share a height pass the threshold.
  ghost predicate NeedsHeight(getter: Getter, threshold: real) {
    forall a, b {:trigger getter(a, b)} :: getter(a, b) > threshold ==> SharesHeight(a, b)
  }

  // The unused spans that exceed the threshold, found by looking at all of them.
  function Exhaustive(spans: seq<Option<Box>>, used: set<nat>, block: Box, getter: Getter,
                      threshold: real): (r: seq<nat>)
    ensures Ascending(r, |spans|)
    ensures forall i: nat {:trigger i in r} ::
      i in r <==> i < |spans| && i !in used && Hits(spans[i], block, getter, threshold)
  {
    if spans == [] then []
    else
      var last := |spans| - 1;
      Exhaustive(spans[..last], used, block, getter, threshold)
      + if last !in used && Hits(spans[last], block, getter, threshold) then [last] else []
  }

  class SpanBlockMatcher {
    const spans: seq<Option<Box>>
    const gridSize: real
    var grid: map<int, seq<nat>>
    var usedSpanIndices: set<nat>

    ghost predicate Valid()
      reads this
    {
      gridSize > 0.0 && IsGrid(grid, spans, gridSize)
    }

    // `gridSize` is the median span height, at least 1.
    constructor (spans: seq<Option<Box>>, gridSize: real)
      requires gridSize >= 1.0
      ensures Valid() && this.spans == spans && usedSpanIndices == {}
    {
      var rows := BuildGrid(spans, gridSize);
      this.spans, this.gridSize, grid, usedSpanIndices := spans, gridSize, rows, {};
    }

    // The spans that share a grid row with the block, lowest index first.
    method CandidateIndicesForBlock(block: Box) returns (candidates: seq<nat>)
      requires Valid()
      ensures Ascending(candidates, |spans|)
      ensures forall i: nat {:trigger i in candidates} :: i in candidates <==> IsCandidate(spans, block, gridSize, i)
    {
      hide Covers, Cell, IsGrid;
      var startCell, endCell := Cell(block.y0, gridSize), Cell(block.y1, gridSize);
      var found: set<nat> := {};
      var cell := startCell;
      while cell <= endCell
        invariant startCell <= cell
        invariant forall i: nat {:trigger i in found} :: i in found <==>
          exists c: int :: startCell <= c < cell && c <= endCell && i in Row(spans, c, gridSize)
        decreases endCell - cell + 1
      {
        GridRow(grid, spans, gridSize, cell);
        found := found + set i | i in RowOf(grid, cell);
        cell := cell + 1;
      }
      forall i: nat ensures i in found <==> IsCandidate(spans, block, gridSize, i) {
        CoversBlock(block, gridSize);
      }
      candidates := [];
      for i := 0 to |spans|
        invariant Ascending(candidates, i)
        invariant forall k: nat {:trigger k in candidates} :: k in candidates <==> k < i && k in found
      {
        if i in found {
          candidates := candidates + [i];
        }
      }
    }

    // The unused candidates that pass; with a getter that needs a shared height, what a search
    // of all spans would give.
    method CollectForBlock(block: Box, getter: Getter, threshold: real) returns (collected: seq<nat>)
      requires Valid()
      modifies this`usedSpanIndices
      ensures Valid() && Ascending(collected, |spans|)
      ensures forall i: nat {:trigger i in collected} :: i in collected <==>
        IsCandidate(spans, block, gridSize, i) && i !in old(usedSpanIndices) && Hits(spans[i], block, getter, threshold)
      ensures NeedsHeight(getter, threshold) ==>
        collected == Exhaustive(spans, old(usedSpanIndices), block, getter, threshold)
      ensures usedSpanIndices == old(usedSpanIndices) + SetOf(collected)
    {
      hide IsGrid, IsCandidate, NeedsHeight;
      var candidates := CandidateIndicesForBlock(block);
      ghost var used := usedSpanIndices;
      collected := [];
      for k := 0 to |candidates|
        invariant usedSpanIndices == used + SetOf(collected)
        invariant Ascending(collected, if k == 0 then 0 else candidates[k - 1] + 1)
        invariant forall i: nat {:trigger i in collected} :: i in collected <==>
          i in candidates[..k] && i !in used && Hits(spans[i], block, getter, threshold)
      {
        var i := candidates[k];
        assert candidates[..k + 1] == candidates[..k] + [i];
        assert i in candidates;
        CandidateHasBox(spans, block, gridSize, i);
        if i !in usedSpanIndices && getter(spans[i].value, block) > threshold {
          collected := collected + [i];
          usedSpanIndices := usedSpanIndices + {i};
        }
      }
      assert candidates[..|candidates|] == candidates;
      if NeedsHeight(getter, threshold) {
        CollectedAll(spans, used, block, getter, threshold, gridSize, collected);
      }
    }

    method RemainingSpans() returns (remaining: seq<nat>)
      ensures Ascending(remaining, |spans|)
      ensures forall i: nat {:trigger i in remaining} :: i in remaining <==> i < |spans| && i !in usedSpanIndices
    {
      remaining := [];
      for i := 0 to |spans|
        invariant Ascending(remaining, i)
        invariant forall k: nat {:trigger k in remaining} :: k in remaining <==> k < i && k !in usedSpanIndices
      {
        if i !in usedSpanIndices {
          remaining := remaining + [i];
        }
      }
    }
  }

  ghost predicate IsCandidate(spans: seq<Option<Box>>, block: Box, size: real, i: nat)
    requires size > 0.0
  {
    exists cell: int :: Covers(block, cell, size) && i in Row(spans, cell, size)
  }

  lemma GridRow(grid: map<int, seq<nat>>, boxes: seq<Option<Box>>, size: real, cell: int)
    requires size > 0.0 && IsGrid(grid, boxes, size)
    ensures RowOf(grid, cell) == Row(boxes, cell, size)
  {
  }

  lemma CoversBlock(block: Box, size: real)
    requires size > 0.0
    ensures forall cell: int {:trigger Covers(block, cell, size)} ::
      Covers(block, cell, size) <==> Cell(block.y0, size) <= cell <= Cell(block.y1, size)
  {
  }

  lemma CandidateHasBox(spans: seq<Option<Box>>, block: Box, size: real, i: nat)
    requires size > 0.0 && IsCandidate(spans, block, size, i)
    ensures i < |spans| && spans[i].Some?
  {
  }

  lemma HitIsCandidate(spans: seq<Option<Box>>, block: Box, getter: Getter, threshold: real, size: real, i: nat)
    requires size > 0.0 && NeedsHeight(getter, threshold) && i < |spans| && Hits(spans[i], block, getter, threshold)
    ensures IsCandidate(spans, block, size, i)
  {
    hide Row;
    var cell := SharedCell(spans[i].value, block, size);
    assert Covers(block, cell, size) && i in Row(spans, cell, size);
  }

  lemma CollectedAll(spans: seq<Option<Box>>, used: set<nat>, block: Box, getter: Getter, threshold: real, size: real,
                     collected: seq<nat>)
    requires size > 0.0 && NeedsHeight(getter, threshold) && Ascending(collected, |spans|)
    requires forall i: nat {:trigger i in collected} :: i in collected <==>
      IsCandidate(spans, block, size, i) && i !in used && i < |spans| && Hits(spans[i], block, getter, threshold)
    ensures collected == Exhaustive(spans, used, block, getter, threshold)
  {
    hide IsCandidate, NeedsHeight, Ascending;
    var all := Exhaustive(spans, used, block, getter, threshold);
    forall i: nat {:trigger i in collected} {:trigger i in all} ensures i in collected <==> i in all {
      if i in all {
        HitIsCandidate(spans, block, getter, threshold, size, i);
      }
    }
    SameElementsSameOrder(collected, all, |spans|);
  }

  // The two getters in use need a shared height once the threshold is not negative.
  lemma GettersNeedHeight(threshold: real)
    requires threshold >= 0.0
    ensures NeedsHeight(OverlapRatio, threshold) && NeedsHeight(FormulaNumberRatio, threshold)
  {
  }

  // A span and a block that share a grid row.
  ghost predicate ShareRow(a: Box, b: Box, size: real)
    requires size > 0.0
  {
    exists cell: int :: Covers(a, cell, size) && Covers(b, cell, size)
  }

  // The index finds every span over the threshold, for all boxes, exactly when the threshold
  // is not negative.
  lemma IndexNeedsThreshold(size: real, threshold: real)
    requires size > 0.0
    ensures (forall a, b :: OverlapRatio(a, b) > threshold ==> ShareRow(a, b, size)) <==> threshold >= 0.0
  {
    hide OverlapRatio;
    if threshold >= 0.0 {
      forall a, b | OverlapRatio(a, b) > threshold ensures ShareRow(a, b, size) {
        PositiveRatio(a, b);
        var cell := SharedCell(a, b, size);
        assert Covers(a, cell, size) && Covers(b, cell, size);
      }
    } else {
      var a, b := Box(0.0, 0.0, 1.0, size), Box(0.0, 3.0 * size, 1.0, 4.0 * size);
      PositiveRatio(a, b);
      assert 3.0 * size / size == 3.0;
      assert OverlapRatio(a, b) > threshold && !ShareRow(a, b, size);
    }
  }

  // ----------------------------------------------------- a page's blocks

  // A text block, and whether it holds a formula number.
  datatype Block = Block(box: Box, formulaNumber: bool)

  const THRESHOLD := 0.5

  function GetterOf(block: Block): Getter {
    if block.formulaNumber then FormulaNumberRatio else OverlapRatio
  }

  predicate Claims(span: Option<Box>, block: Block) {
    Hits(span, block.box, GetterOf(block), THRESHOLD)
  }

  // A text block claims a span with an area if more than half of the span lies in it, a formula
  // number's block if more than half of the smaller of the two does.
  lemma ClaimsMeans(span: Box, block: Block)
    requires span.x0 < span.x1 && span.y0 < span.y1 && block.box.x0 < block.box.x1 && block.box.y0 < block.box.y1
    ensures Claims(Some(span), block) <==>
      2.0 * SharedArea(span, block.box) >
      if block.formulaNumber then MinR(AreaOf(span), AreaOf(block.box)) else AreaOf(span)
    ensures !Claims(None, block)
  {
    ClaimsBy(Some(span), block);
    ClaimsBy(None, block);
    hide OverlapRatio, OverlapInMinBoxRatio, SharedArea, FormulaNumberRatio, AreaOf, Claims;
    RatiosAreShares(span, block.box);
    AreaPositive(span);
    AreaPositive(block.box);
    if block.formulaNumber {
      MoreThanHalf(OverlapInMinBoxRatio(span, block.box), MinR(AreaOf(span), AreaOf(block.box)),
        SharedArea(span, block.box));
    } else {
      MoreThanHalf(OverlapRatio(span, block.box), AreaOf(span), SharedArea(span, block.box));
    }
  }

  lemma ClaimsBy(span: Option<Box>, block: Block)
    ensures Claims(span, block) <==>
      && span.Some?
      && 0.5 < if block.formulaNumber then FormulaNumberRatio(span.value, block.box)
               else OverlapRatio(span.value, block.box)
  {
  }

  lemma MoreThanHalf(ratio: real, area: real, shared: real)
    requires area > 0.0 && ratio * area == shared
    ensures ratio > 0.5 <==> 2.0 * shared > area
  {
    var d := ratio - 0.5;
    assert 2.0 * shared - area == 2.0 * (d * area);
    if d > 0.0 {
      PositiveProduct(d, area);
    } else if d < 0.0 {
      PositiveProduct(-d, area);
      assert (-d) * area == -(d * area);
    }
  }

  // The first block that claims the span.
  function Owner(span: Option<Box>, blocks: seq<Block>): Option<nat> {
    if blocks == [] then None
    else
      var last := |blocks| - 1;
      var earlier := Owner(span, blocks[..last]);
      if earlier.Some? then earlier else if Claims(span, blocks[last]) then Some(last) else None
  }

  // The spans that belong to block k, in their order, or to none.
  ghost predicate Belong(list: seq<nat>, spans: seq<Option<Box>>, blocks: seq<Block>, owner: Option<nat>) {
    && Ascending(list, |spans|)
    && forall i: nat {:trigger i in list} :: i in list <==> i < |spans| && Owner(spans[i], blocks) == owner
  }

  lemma OwnerSnoc(span: Option<Box>, blocks: seq<Block>, k: nat)
    requires k < |blocks|
    ensures Owner(span, blocks[..k + 1]) ==
      if Owner(span, blocks[..k]).Some? then Owner(span, blocks[..k])
        else if Claims(span, blocks[k]) then Some(k) else None
  {
    assert blocks[..k + 1][..k] == blocks[..k];
  }

  // Blocks taken one after another: every span goes to the first block that claims it, and
  // the rest remain.
  method CollectForBlocks(spans: seq<Option<Box>>, blocks: seq<Block>, gridSize: real)
    returns (lists: seq<seq<nat>>, remaining: seq<nat>)
    requires gridSize >= 1.0
    ensures |lists| == |blocks|
    ensures forall k: nat {:trigger lists[k]} :: k < |lists| ==> Belong(lists[k], spans, blocks, Some(k))
    ensures Belong(remaining, spans, blocks, None)
  {
    hide Ascending, Claims, Owner, NeedsHeight, Belong, GetterOf;
    var matcher := new SpanBlockMatcher(spans, gridSize);
    lists := [];
    NobodyOwns(spans);
    assert blocks[..0] == [];
    for k := 0 to |blocks|
      invariant matcher.Valid() && matcher.spans == spans && |lists| == k && fresh(matcher)
      invariant forall i: nat {:trigger spans[i]} :: i < |spans| ==>
        (i in matcher.usedSpanIndices <==> Owner(spans[i], blocks[..k]).Some?)
      invariant forall j: nat {:trigger lists[j]} :: j < k ==> Belong(lists[j], spans, blocks[..k], Some(j))
    {
      GettersNeedHeight(THRESHOLD);
      ghost var used := matcher.usedSpanIndices;
      var collected := matcher.CollectForBlock(blocks[k].box, GetterOf(blocks[k]), THRESHOLD);
      OneMoreBlock(spans, blocks, k, used, collected, lists);
      lists := lists + [collected];
    }
    assert blocks[..|blocks|] == blocks;
    remaining := matcher.RemainingSpans();
    NobodyElse(spans, blocks, matcher.usedSpanIndices, remaining);
  }

  lemma NobodyOwns(spans: seq<Option<Box>>)
    ensures forall i: nat {:trigger spans[i]} :: i < |spans| ==> Owner(spans[i], []) == None
  {
  }

  lemma NobodyElse(spans: seq<Option<Box>>, blocks: seq<Block>, used: set<nat>, remaining: seq<nat>)
    requires forall i: nat {:trigger spans[i]} :: i < |spans| ==> (i in used <==> Owner(spans[i], blocks).Some?)
    requires Ascending(remaining, |spans|)
    requires forall i: nat {:trigger i in remaining} :: i in remaining <==> i < |spans| && i !in used
    ensures Belong(remaining, spans, blocks, None)
  {
    hide Ascending, Owner;
  }

  lemma GetterFits(block: Block)
    ensures NeedsHeight(GetterOf(block), THRESHOLD)
  {
    hide NeedsHeight;
    GettersNeedHeight(THRESHOLD);
  }

  lemma OneMoreBlock(spans: seq<Option<Box>>, blocks: seq<Block>, k: nat, used: set<nat>, collected: seq<nat>,
                     lists: seq<seq<nat>>)
    requires k < |blocks| && |lists| == k
    requires forall i: nat {:trigger spans[i]} :: i < |spans| ==> (i in used <==> Owner(spans[i], blocks[..k]).Some?)
    requires NeedsHeight(GetterOf(blocks[k]), THRESHOLD) ==>
      collected == Exhaustive(spans, used, blocks[k].box, GetterOf(blocks[k]), THRESHOLD)
    requires forall j: nat {:trigger lists[j]} :: j < k ==> Belong(lists[j], spans, blocks[..k], Some(j))
    ensures forall i: nat {:trigger spans[i]} :: i < |spans| ==>
      (i in used + SetOf(collected) <==> Owner(spans[i], blocks[..k + 1]).Some?)
    ensures forall j: nat {:trigger lists[j]} :: j < k ==> Belong(lists[j], spans, blocks[..k + 1], Some(j))
    ensures Belong(collected, spans, blocks[..k + 1], Some(k))
  {
    hide Ascending, Owner, NeedsHeight, GetterOf;
    GetterFits(blocks[k]);
    forall i: nat | i < |spans|
      ensures Owner(spans[i], blocks[..k + 1]) ==
        if Owner(spans[i], blocks[..k]).Some? then Owner(spans[i], blocks[..k])
          else if Claims(spans[i], blocks[k]) then Some(k) else None
      ensures Owner(spans[i], blocks[..k]).Some? ==> Owner(spans[i], blocks[..k]).value < k
    {
      OwnerSnoc(spans[i], blocks, k);
      OwnerIsFirst(spans[i], blocks[..k], 0);
    }
    forall j: nat {:trigger lists[j]} | j < k ensures Belong(lists[j], spans, blocks[..k + 1], Some(j)) {
      assert Belong(lists[j], spans, blocks[..k], Some(j));
    }
  }

  // No earlier block claims the span, and without an owner none does.
  lemma {:induction false} OwnerIsFirst(span: Option<Box>, blocks: seq<Block>, k: nat)
    ensures Owner(span, blocks).Some? ==>
      (Owner(span, blocks).value < |blocks| && Claims(span, blocks[Owner(span, blocks).value]))
    ensures k < |blocks| && Claims(span, blocks[k]) ==> Owner(span, blocks).Some? && Owner(span, blocks).value <= k
  {
    hide Claims;
    if blocks != [] {
      OwnerIsFirst(span, blocks[..|blocks| - 1], k);
    }
  }
}
