/**
 Giving the characters of a page to its text spans. Each character goes to the highest span
 that accepts it; a grid over the spans' heights only narrows the search.
 */
module CharFill {
  import opened Wrappers
  import opened Sorting
  import opened Boxes
  import opened Spans

  datatype Span = Span(id: nat, box: Box)

  datatype Char = Char(text: string, box: Box)

  const STOP_FLAGS: set<string> := {
    ".", "!", "?", "\U{3002}", "\U{FF01}", "\U{FF1F}", ")", "\U{FF09}", "\"", "\U{201D}", ":", "\U{FF1A}", ";",
    "\U{FF1B}", "]", "\U{3011}", "}", ">", "\U{300B}", "\U{3001}", ",", "\U{FF0C}", "-", "\U{2014}", "\U{2013}"
  }

  const START_FLAGS: set<string> := {
    "(", "\U{FF08}", "\"", "\U{201C}", "\U{3010}", "{", "\U{300A}", "<", "\U{300C}", "\U{300E}", "["
  }

  const SPAN_HEIGHT_RATIO := 0.33

  function CenterX(box: Box): real {
    (box.x0 + box.x1) / 2.0
  }

  function CenterY(box: Box): real {
    (box.y0 + box.y1) / 2.0
  }

  // The character's middle line is within the span, near the span's own.
  predicate SameHeight(glyph: Box, span: Box) {
    span.y0 < CenterY(glyph) < span.y1
    && AbsR(CenterY(glyph) - CenterY(span)) < (span.y1 - span.y0) * SPAN_HEIGHT_RATIO
  }

  function CalculateCharInSpan(glyph: Box, span: Box, text: string): bool {
    var height := span.y1 - span.y0;
    if span.x0 < CenterX(glyph) < span.x1 && SameHeight(glyph, span) then true
    else if text in STOP_FLAGS then
      span.x1 - height < glyph.x0 < span.x1 && CenterX(glyph) > span.x0 && SameHeight(glyph, span)
    else if text in START_FLAGS then
      span.x0 < glyph.x1 < span.x0 + height && CenterX(glyph) < span.x1 && SameHeight(glyph, span)
    else false
  }

  predicate Accepts(span: Span, glyph: Char) {
    CalculateCharInSpan(glyph.box, span.box, glyph.text)
  }

  // A character is accepted by the position of its middle, in the span's height and near its
  // middle line, and by one of three rules for the width: its middle lies in the span; a closing
  // mark starts less than a span's height before the span's end; an opening mark that is no
  // closing one ends less than a span's height after the span's start.
  lemma AcceptsMeans(span: Span, glyph: Char)
    ensures var s, g := span.box, glyph.box;
      var height := s.y1 - s.y0;
      Accepts(span, glyph) <==>
        && 2.0 * s.y0 < g.y0 + g.y1 < 2.0 * s.y1
        && -66.0 * height < 100.0 * ((g.y0 + g.y1) - (s.y0 + s.y1)) < 66.0 * height
        && (|| 2.0 * s.x0 < g.x0 + g.x1 < 2.0 * s.x1
            || (glyph.text in STOP_FLAGS && s.x1 - height < g.x0 < s.x1 && g.x0 + g.x1 > 2.0 * s.x0)
            || (glyph.text in START_FLAGS && glyph.text !in STOP_FLAGS
                && s.x0 < g.x1 < s.x0 + height && g.x0 + g.x1 < 2.0 * s.x1))
  {
  }

  // Every pair of brackets opens with an opening and closes with a closing mark, but for the two
  // kinds of corner brackets, which close with neither; the straight quote alone is both.
  lemma MarksPair()
    ensures var open := ["(", "\U{FF08}", "\U{201C}", "\U{3010}", "{", "\U{300A}", "<", "["];
      var close := [")", "\U{FF09}", "\U{201D}", "\U{3011}", "}", "\U{300B}", ">", "]"];
      forall k :: 0 <= k < |open| == |close| ==> open[k] in START_FLAGS && close[k] in STOP_FLAGS
    ensures "\U{300C}" in START_FLAGS && "\U{300D}" !in STOP_FLAGS
    ensures "\U{300E}" in START_FLAGS && "\U{300F}" !in STOP_FLAGS
    ensures STOP_FLAGS * START_FLAGS == {"\""}
    ensures forall mark :: mark in [".", ",", "!", "?", ":", ";", "-"] ==> mark in STOP_FLAGS
  {
  }

  // The cheap test tried first: only a line's first or last marks may have their middle
  // outside the span's width.
  predicate PassesWidth(span: Span, glyph: Char) {
    glyph.text in STOP_FLAGS || glyph.text in START_FLAGS || span.box.x0 < CenterX(glyph.box) < span.box.x1
  }

  // Whoever accepts passes the cheap test and covers the row of the character's middle.
  lemma AcceptedIsReached(span: Span, glyph: Char, size: real)
    requires size > 0.0 && Accepts(span, glyph)
    ensures PassesWidth(span, glyph) && Covers(span.box, Cell(CenterY(glyph.box), size), size)
  {
    CellMonotone(span.box.y0, CenterY(glyph.box), size);
    CellMonotone(CenterY(glyph.box), span.box.y1, size);
  }

  // ------------------------------------------------------------ the order

  predicate Above(a: Span, b: Span) {
    a.box.y0 <= b.box.y0
  }

  function SortByTop(spans: seq<Span>): (r: seq<Span>)
    ensures multiset(r) == multiset(spans)
  {
    Sort(Above, spans)
  }

  // From the top down, and in the order they came where the tops are level.
  lemma SortedByTop(spans: seq<Span>, span: Span)
    ensures var sorted := SortByTop(spans);
      && (forall i, j {:trigger sorted[i], sorted[j]} :: 0 <= i < j < |sorted| ==> sorted[i].box.y0 <= sorted[j].box.y0)
      && Level(Above, sorted, span) == Level(Above, spans, span)
  {
    SortIsOrdered(Above, spans);
    SortIsStable(Above, spans, span);
  }

  // ------------------------------------------------------------ the owner

  // The first span of the list that accepts the character.
  function FirstAccepting(spans: seq<Span>, glyph: Char): (r: Option<nat>)
    ensures r.Some? ==> r.value < |spans| && Accepts(spans[r.value], glyph)
    ensures forall k: nat {:trigger spans[k]} :: k < |spans| && Accepts(spans[k], glyph) ==> r.Some? && r.value <= k
  {
    if spans == [] then None
    else
      var last := |spans| - 1;
      var earlier := FirstAccepting(spans[..last], glyph);
      if earlier.Some? then earlier else if Accepts(spans[last], glyph) then Some(last) else None
  }

  // The characters of span i, in the order they come.
  function CharsOf(spans: seq<Span>, chars: seq<Char>, i: nat): seq<Char> {
    if chars == [] then []
    else
      var last := |chars| - 1;
      CharsOf(spans, chars[..last], i) + if FirstAccepting(spans, chars[last]) == Some(i) then [chars[last]] else []
  }

  lemma FirstIs(spans: seq<Span>, glyph: Char, r: Option<nat>)
    requires r.Some? ==> r.value < |spans| && Accepts(spans[r.value], glyph)
    requires forall k: nat {:trigger spans[k]} :: k < |spans| && Accepts(spans[k], glyph) ==> r.Some? && r.value <= k
    ensures r == FirstAccepting(spans, glyph)
  {
    var first := FirstAccepting(spans, glyph);
  }

  function BoxesOf(spans: seq<Span>): (r: seq<Option<Box>>)
    ensures |r| == |spans| && forall i {:trigger r[i]} {:trigger spans[i]} :: 0 <= i < |spans| ==>
      r[i] == Some(spans[i].box)
  {
    seq(|spans|, i requires 0 <= i < |spans| => Some(spans[i].box))
  }

  // The search of one grid row for the first span that accepts.
  method FindSpan(spans: seq<Span>, grid: map<int, seq<nat>>, size: real, glyph: Char) returns (found: Option<nat>)
    requires size > 0.0 && IsGrid(grid, BoxesOf(spans), size)
    ensures found == FirstAccepting(spans, glyph)
  {
    hide IsGrid, Accepts, PassesWidth, FirstAccepting, Row, Cell, Covers;
    var cell := Cell(CenterY(glyph.box), size);
    var candidates := RowOf(grid, cell);
    GridRow(grid, BoxesOf(spans), size, cell);
    found := None;
    var n := 0;
    while n < |candidates| && found.None?
      invariant n <= |candidates|
      invariant found.None? ==> forall k {:trigger candidates[k]} :: 0 <= k < n ==>
        !Accepts(spans[candidates[k]], glyph)
      invariant found.Some? ==> n > 0 && found.value == candidates[n - 1] && Accepts(spans[candidates[n - 1]], glyph)
      invariant found.Some? ==> forall k {:trigger candidates[k]} :: 0 <= k < n - 1 ==>
        !Accepts(spans[candidates[k]], glyph)
    {
      var i := candidates[n];
      if PassesWidth(spans[i], glyph) && CalculateCharInSpan(glyph.box, spans[i].box, glyph.text) {
        AcceptsIs(spans[i], glyph);
        found := Some(i);
      } else if Accepts(spans[i], glyph) {
        AcceptsIs(spans[i], glyph);
        AcceptedIsReached(spans[i], glyph, size);
        assert false;
      }
      n := n + 1;
    }
    forall k: nat {:trigger spans[k]} | k < |spans| && Accepts(spans[k], glyph)
      ensures found.Some? && found.value <= k
    {
      AcceptedIsReached(spans[k], glyph, size);
      assert k in candidates;
      var j :| 0 <= j < |candidates| && candidates[j] == k;
      assert found.Some?;
    }
    FirstIs(spans, glyph, found);
  }

  lemma AcceptsIs(span: Span, glyph: Char)
    ensures Accepts(span, glyph) <==> CalculateCharInSpan(glyph.box, span.box, glyph.text)
  {
  }

  // Every character goes to the highest span that accepts it, whatever the row height.
  method FillCharInSpans(spans: seq<Span>, chars: seq<Char>, medianSpanHeight: real)
    returns (sorted: seq<Span>, filled: seq<seq<Char>>)
    ensures sorted == SortByTop(spans) && |filled| == |sorted|
    ensures forall i: nat {:trigger filled[i]} :: i < |filled| ==> filled[i] == CharsOf(sorted, chars, i)
  {
    hide IsGrid, Accepts;
    sorted := SortByTop(spans);
    var size := MaxR(1.0, medianSpanHeight);
    var grid := BuildGrid(BoxesOf(sorted), size);
    filled := seq(|sorted|, i => []);
    for n := 0 to |chars|
      invariant |filled| == |sorted|
      invariant forall i: nat {:trigger filled[i]} :: i < |filled| ==> filled[i] == CharsOf(sorted, chars[..n], i)
    {
      var found := FindSpan(sorted, grid, size, chars[n]);
      assert chars[..n + 1][..n] == chars[..n];
      if found.Some? {
        filled := filled[found.value := filled[found.value] + [chars[n]]];
      }
    }
    assert chars[..|chars|] == chars;
  }

  // A character is in one span's list at most, and in one exactly if some span accepts it.
  lemma {:induction false} OneOwner(spans: seq<Span>, chars: seq<Char>, glyph: Char, i: nat)
    requires glyph in chars && i < |spans|
    ensures glyph in CharsOf(spans, chars, i) <==> FirstAccepting(spans, glyph) == Some(i)
    ensures FirstAccepting(spans, glyph) == Some(i) ==>
      multiset(CharsOf(spans, chars, i))[glyph] == multiset(chars)[glyph]
  {
    CountOf(spans, chars, glyph, i);
  }

  lemma {:induction false} CountOf(spans: seq<Span>, chars: seq<Char>, glyph: Char, i: nat)
    ensures multiset(CharsOf(spans, chars, i))[glyph] ==
      if FirstAccepting(spans, glyph) == Some(i) then multiset(chars)[glyph] else 0
  {
    hide FirstAccepting;
    if chars != [] {
      var last := |chars| - 1;
      CountOf(spans, chars[..last], glyph, i);
      assert chars == chars[..last] + [chars[last]];
    }
  }

  // No span above the owner accepts the character.
  lemma OwnerIsHighest(spans: seq<Span>, glyph: Char, k: nat)
    requires var sorted := SortByTop(spans);
      k < |sorted| && Accepts(sorted[k], glyph)
    ensures var sorted := SortByTop(spans);
      FirstAccepting(sorted, glyph).Some? && sorted[FirstAccepting(sorted, glyph).value].box.y0 <= sorted[k].box.y0
  {
    hide Accepts;
    SortIsOrdered(Above, spans);
    var first := FirstAccepting(SortByTop(spans), glyph);
    assert first.value < k ==> Above(SortByTop(spans)[first.value], SortByTop(spans)[k]);
  }
}
