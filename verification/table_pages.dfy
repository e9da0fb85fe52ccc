/**
 The backward page loop: each page's top table is merged into the bottom table of
 the page before it, so a table that fills whole pages is gathered from the back.
 */
module TablePages {
  import opened Wrappers
  import opened TableGrid
  import opened TableCellMerge
  import opened TableMerge

  // The tables that are a page's first and last paragraph block, by number; a page
  // with a single block names the same table twice.
  datatype Page = Page(front: Option<nat>, back: Option<nat>)

  // What the heuristics outside this model answer for a page: whether its top table
  // continues the previous page's, and how many header rows the two share.
  datatype Verdict = Verdict(mayMerge: bool, headerCount: nat)

  // A table as it was parsed.
  datatype Table = Table(rows: seq<Row>, cellMerge: seq<int>, hasBody: bool)

  predicate Names(page: Page, id: nat) {
    page.front == Some(id) || page.back == Some(id)
  }

  // Every named table exists, and different pages name different tables.
  ghost predicate WellNumbered(pages: seq<Page>, n: nat) {
    && (forall p, id: nat {:trigger Names(pages[p], id)} :: 0 <= p < |pages| && Names(pages[p], id) ==> id < n)
    && (forall p, q, id: nat {:trigger Names(pages[p], id), Names(pages[q], id)} ::
          0 <= p < q < |pages| && Names(pages[p], id) ==> !Names(pages[q], id))
  }

  // Page p's top table is merged into the bottom table of page p - 1.
  predicate Joins(pages: seq<Page>, verdicts: seq<Verdict>, p: int)
    requires |pages| == |verdicts|
  {
    1 <= p < |pages| && pages[p].front.Some? && pages[p - 1].back.Some? && verdicts[p].mayMerge
  }

  // Page p's bottom table is also its top one, and is itself merged away.
  predicate PassedOn(pages: seq<Page>, verdicts: seq<Verdict>, p: int)
    requires |pages| == |verdicts|
  {
    Joins(pages, verdicts, p) && pages[p].front == pages[p].back
  }

  // ------------------------------------------- what the loop gathers

  // Rows of page p's bottom table once the pages after p are handled.
  ghost function BottomRows(pages: seq<Page>, tables: seq<Table>, verdicts: seq<Verdict>, p: nat): seq<Row>
    requires |pages| == |verdicts| && WellNumbered(pages, |tables|) && p < |pages| && pages[p].back.Some?
    decreases |pages| - p, 0
  {
    var own := Own(pages, tables, p, pages[p].back.value);
    if !Joins(pages, verdicts, p + 1) then own.rows else
      var top := Own(pages, tables, p + 1, pages[p + 1].front.value);
      var cur := TopRows(pages, tables, verdicts, p + 1);
      MergedRows(own.rows, cur, top.cellMerge, HeaderCut(cur, verdicts[p + 1].headerCount), own.hasBody && top.hasBody)
  }

  // Rows of page p's top table when page p is handled.
  ghost function TopRows(pages: seq<Page>, tables: seq<Table>, verdicts: seq<Verdict>, p: nat): seq<Row>
    requires |pages| == |verdicts| && WellNumbered(pages, |tables|) && p < |pages| && pages[p].front.Some?
    decreases |pages| - p, 1
  {
    if pages[p].front == pages[p].back then BottomRows(pages, tables, verdicts, p)
    else Own(pages, tables, p, pages[p].front.value).rows
  }

  function Own(pages: seq<Page>, tables: seq<Table>, p: nat, id: nat): Table
    requires WellNumbered(pages, |tables|) && p < |pages| && Names(pages[p], id)
  {
    tables[id]
  }

  // ----------------------------------------------------------- the loop

  ghost predicate AllDistinct(states: seq<TableMergeState>) {
    forall i, j {:trigger states[i], states[j]} :: 0 <= i < j < |states| ==> states[i] != states[j]
  }

  // A parsed table and the state built for it.
  ghost predicate Holds(state: TableMergeState, rows: seq<Row>)
    reads state
  {
    state.Valid() && state.rows == rows
  }

  // Page q's bottom table, when pages after p are handled: until page q's turn has passed
  // its own table on, it holds what was gathered from the pages behind it.
  ghost predicate BottomHolds(pages: seq<Page>, tables: seq<Table>, verdicts: seq<Verdict>,
                              states: seq<TableMergeState>, p: int, q: nat)
    requires |pages| == |verdicts| && |states| == |tables| && WellNumbered(pages, |tables|) && q < |pages|
    reads states
  {
    pages[q].back.Some? && (q <= p || !PassedOn(pages, verdicts, q)) ==>
      (assert Names(pages[q], pages[q].back.value);
       Holds(states[pages[q].back.value],
             if q >= p then BottomRows(pages, tables, verdicts, q)
               else Own(pages, tables, q, pages[q].back.value).rows))
  }

  // Page q's top table, when it is another one, is untouched until its page is handled.
  ghost predicate TopHolds(pages: seq<Page>, tables: seq<Table>, verdicts: seq<Verdict>, states: seq<TableMergeState>,
                           p: int, q: nat)
    requires |pages| == |verdicts| && |states| == |tables| && WellNumbered(pages, |tables|) && q < |pages|
    reads states
  {
    pages[q].front.Some? && pages[q].front != pages[q].back && (q <= p || !Joins(pages, verdicts, q)) ==>
      (assert Names(pages[q], pages[q].front.value);
       Holds(states[pages[q].front.value], Own(pages, tables, q, pages[q].front.value).rows))
  }

  ghost predicate Reached(pages: seq<Page>, tables: seq<Table>, verdicts: seq<Verdict>, states: seq<TableMergeState>,
                          p: int)
    requires |pages| == |verdicts| && |states| == |tables| && WellNumbered(pages, |tables|)
    reads states
  {
    && (forall q: nat :: q < |pages| ==> BottomHolds(pages, tables, verdicts, states, p, q))
    && (forall q: nat :: q < |pages| ==> TopHolds(pages, tables, verdicts, states, p, q))
  }

  lemma OtherTable(pages: seq<Page>, n: nat, p: nat, q: nat, id: nat, other: nat)
    requires WellNumbered(pages, n) && p < |pages| && q < |pages| && p != q
    requires Names(pages[p], id) && Names(pages[q], other)
    ensures id != other && id < n && other < n
  {
    if p < q {
      assert Names(pages[p], id) && Names(pages[q], id) ==> false;
    }
  }

  // The states agree with their tables on what no merge changes.
  predicate Built(tables: seq<Table>, states: seq<TableMergeState>)
    requires |states| == |tables|
  {
    forall i :: 0 <= i < |states| ==>
      states[i].cellMerge == tables[i].cellMerge && states[i].hasBody == tables[i].hasBody
  }

  method HandlePage(pages: seq<Page>, ghost tables: seq<Table>, verdicts: seq<Verdict>, states: seq<TableMergeState>,
                    p: nat)
    requires |pages| == |verdicts| && |states| == |tables| && WellNumbered(pages, |tables|) && AllDistinct(states)
    requires Built(tables, states)
    requires 1 <= p < |pages|
    requires Reached(pages, tables, verdicts, states, p)
    modifies states
    ensures Reached(pages, tables, verdicts, states, p - 1)
  {
    hide MergedRows, HeaderCut, Holds, BottomRows;
    if Joins(pages, verdicts, p) {
      var c, v := pages[p].front.value, pages[p - 1].back.value;
      OtherTable(pages, |tables|, p, p - 1, c, v);
      var current, previous := states[c], states[v];
      assert previous != current;
      assert BottomHolds(pages, tables, verdicts, states, p, p - 1);
      assert BottomHolds(pages, tables, verdicts, states, p, p) && TopHolds(pages, tables, verdicts, states, p, p);
      assert Holds(current, TopRows(pages, tables, verdicts, p));
      MergeOne(pages, tables, verdicts, previous, current, p);
      var next := p - 1;
      forall q: nat | q < |pages| ensures BottomHolds(pages, tables, verdicts, states, next, q) {
        assert old(BottomHolds(pages, tables, verdicts, states, p, q));
        BottomIsOther(pages, verdicts, |tables|, p, q);
      }
      forall q: nat | q < |pages| ensures TopHolds(pages, tables, verdicts, states, next, q) {
        assert old(TopHolds(pages, tables, verdicts, states, p, q));
        TopIsOther(pages, verdicts, |tables|, p, q);
      }
    } else {
      NoMergeReaches(pages, tables, verdicts, states, p);
    }
  }

  // One merge leaves page p - 1's bottom table with the rows gathered for it.
  method MergeOne(pages: seq<Page>, ghost tables: seq<Table>, verdicts: seq<Verdict>, previous: TableMergeState,
                  current: TableMergeState, p: nat)
    requires |pages| == |verdicts| && WellNumbered(pages, |tables|) && 1 <= p < |pages| && Joins(pages, verdicts, p)
    requires previous != current && Names(pages[p - 1], pages[p - 1].back.value)
    requires Names(pages[p], pages[p].front.value)
    requires Holds(previous, Own(pages, tables, p - 1, pages[p - 1].back.value).rows)
    requires Holds(current, TopRows(pages, tables, verdicts, p))
    requires previous.hasBody == Own(pages, tables, p - 1, pages[p - 1].back.value).hasBody
    requires var top := Own(pages, tables, p, pages[p].front.value);
      current.cellMerge == top.cellMerge && current.hasBody == top.hasBody
    modifies previous, current
    ensures Holds(previous, BottomRows(pages, tables, verdicts, p - 1))
  {
    hide MergedRows, HeaderCut, TopRows;
    PerformTableMerge(previous, current, verdicts[p].headerCount);
  }

  // A bottom table that is still to hold its rows after the merge of page p, but the merged
  // one itself, is neither of the two merged.
  lemma BottomIsOther(pages: seq<Page>, verdicts: seq<Verdict>, n: nat, p: nat, q: nat)
    requires |pages| == |verdicts| && WellNumbered(pages, n) && 1 <= p < |pages| && q < |pages|
    requires Joins(pages, verdicts, p)
    ensures pages[q].back.Some? && q != p - 1 && (q <= p - 1 || !PassedOn(pages, verdicts, q)) ==>
      (var id := pages[q].back.value;
       id < n && id != pages[p].front.value && id != pages[p - 1].back.value)
  {
    if pages[q].back.Some? && q != p - 1 && (q <= p - 1 || !PassedOn(pages, verdicts, q)) {
      var id := pages[q].back.value;
      OtherTable(pages, n, q, p - 1, id, pages[p - 1].back.value);
      if q != p {
        OtherTable(pages, n, q, p, id, pages[p].front.value);
      }
    }
  }

  lemma TopIsOther(pages: seq<Page>, verdicts: seq<Verdict>, n: nat, p: nat, q: nat)
    requires |pages| == |verdicts| && WellNumbered(pages, n) && 1 <= p < |pages| && q < |pages|
    requires Joins(pages, verdicts, p)
    ensures pages[q].front.Some? && pages[q].front != pages[q].back && (q <= p - 1 || !Joins(pages, verdicts, q)) ==>
      (var id := pages[q].front.value;
       id < n && id != pages[p].front.value && id != pages[p - 1].back.value)
  {
    if pages[q].front.Some? && pages[q].front != pages[q].back && (q <= p - 1 || !Joins(pages, verdicts, q)) {
      var id := pages[q].front.value;
      if q != p - 1 {
        OtherTable(pages, n, q, p - 1, id, pages[p - 1].back.value);
      }
      OtherTable(pages, n, q, p, id, pages[p].front.value);
    }
  }

  lemma NoMergeReaches(pages: seq<Page>, tables: seq<Table>, verdicts: seq<Verdict>, states: seq<TableMergeState>,
                       p: nat)
    requires |pages| == |verdicts| && |states| == |tables| && WellNumbered(pages, |tables|)
    requires 1 <= p < |pages| && !Joins(pages, verdicts, p) && Reached(pages, tables, verdicts, states, p)
    ensures Reached(pages, tables, verdicts, states, p - 1)
  {
    hide MergedRows, HeaderCut, Holds;
    var next := p - 1;
    forall q: nat | q < |pages|
      ensures BottomHolds(pages, tables, verdicts, states, next, q)
      ensures TopHolds(pages, tables, verdicts, states, next, q)
    {
      assert BottomHolds(pages, tables, verdicts, states, p, q);
      assert TopHolds(pages, tables, verdicts, states, p, q);
    }
  }

  method MergeTable(pages: seq<Page>, ghost tables: seq<Table>, verdicts: seq<Verdict>, states: seq<TableMergeState>)
    requires |pages| == |verdicts| && |states| == |tables| && WellNumbered(pages, |tables|) && AllDistinct(states)
    requires Built(tables, states)
    requires forall i {:trigger states[i]} :: 0 <= i < |states| ==> Holds(states[i], tables[i].rows)
    modifies states
    ensures Reached(pages, tables, verdicts, states, 0)
    ensures forall q: nat :: q < |pages| ==> PageKept(pages, tables, verdicts, states, q)
  {
    hide WellNumbered, Reached, AllDistinct, Built, Holds, PageKept;
    if pages == [] {
      NothingToMerge(pages, tables, verdicts, states);
      return;
    }
    var pageIdx := |pages| - 1;
    Initially(pages, tables, verdicts, states);
    while pageIdx >= 1
      invariant 0 <= pageIdx < |pages|
      invariant Reached(pages, tables, verdicts, states, pageIdx)
    {
      HandlePage(pages, tables, verdicts, states, pageIdx);
      pageIdx := pageIdx - 1;
    }
    ReachedKeeps(pages, tables, verdicts, states);
  }

  // A page's bottom table, unless it is the page's only block and went into the table before it,
  // holds the gathered rows; its top table, when it is another one and did not go into the table
  // before it, holds its own.
  ghost predicate PageKept(pages: seq<Page>, tables: seq<Table>, verdicts: seq<Verdict>, states: seq<TableMergeState>,
                           q: nat)
    requires |pages| == |verdicts| && |states| == |tables| && WellNumbered(pages, |tables|) && q < |pages|
    reads states
  {
    var taken := q >= 1 && pages[q].front.Some? && pages[q - 1].back.Some? && verdicts[q].mayMerge;
    && (pages[q].back.Some? && !(taken && pages[q].front == pages[q].back) ==>
          pages[q].back.value < |states| && states[pages[q].back.value].Valid()
          && states[pages[q].back.value].rows == BottomRows(pages, tables, verdicts, q))
    && (pages[q].front.Some? && pages[q].front != pages[q].back && !taken ==>
          pages[q].front.value < |states| && states[pages[q].front.value].Valid()
          && states[pages[q].front.value].rows == tables[pages[q].front.value].rows)
  }

  lemma ReachedKeeps(pages: seq<Page>, tables: seq<Table>, verdicts: seq<Verdict>, states: seq<TableMergeState>)
    requires |pages| == |verdicts| && |states| == |tables| && WellNumbered(pages, |tables|)
    requires Reached(pages, tables, verdicts, states, 0)
    ensures forall q: nat :: q < |pages| ==> PageKept(pages, tables, verdicts, states, q)
  {
    hide BottomRows;
    forall q: nat | q < |pages| ensures PageKept(pages, tables, verdicts, states, q) {
      assert BottomHolds(pages, tables, verdicts, states, 0, q) && TopHolds(pages, tables, verdicts, states, 0, q);
      assert pages[q].back.Some? ==> Names(pages[q], pages[q].back.value);
      assert pages[q].front.Some? ==> Names(pages[q], pages[q].front.value);
    }
  }

  // What is gathered: a table alone without a table at the top of the next page that may be merged,
  // else one merge with that one, as it stands when its page's turn comes.
  lemma GatheredStep(pages: seq<Page>, tables: seq<Table>, verdicts: seq<Verdict>, p: nat)
    requires |pages| == |verdicts| && WellNumbered(pages, |tables|) && p < |pages| && pages[p].back.Some?
    ensures pages[p].back.value < |tables|
    ensures p + 1 == |pages| || pages[p + 1].front.None? || !verdicts[p + 1].mayMerge ==>
      BottomRows(pages, tables, verdicts, p) == tables[pages[p].back.value].rows
    ensures p + 1 < |pages| && pages[p + 1].front.Some? && verdicts[p + 1].mayMerge ==>
      && pages[p + 1].front.value < |tables|
      && var own, top := tables[pages[p].back.value], tables[pages[p + 1].front.value];
         var cur := if pages[p + 1].back == pages[p + 1].front then BottomRows(pages, tables, verdicts, p + 1)
                    else top.rows;
         BottomRows(pages, tables, verdicts, p) ==
         MergedRows(own.rows, cur, top.cellMerge, HeaderCut(cur, verdicts[p + 1].headerCount),
           own.hasBody && top.hasBody)
  {
    hide MergedRows, HeaderCut;
    assert Names(pages[p], pages[p].back.value);
    if p + 1 < |pages| && pages[p + 1].front.Some? {
      assert Names(pages[p + 1], pages[p + 1].front.value);
    }
  }

  lemma NothingToMerge(pages: seq<Page>, tables: seq<Table>, verdicts: seq<Verdict>, states: seq<TableMergeState>)
    requires |pages| == |verdicts| && |states| == |tables| && WellNumbered(pages, |tables|) && pages == []
    ensures Reached(pages, tables, verdicts, states, 0)
  {
  }

  lemma Initially(pages: seq<Page>, tables: seq<Table>, verdicts: seq<Verdict>, states: seq<TableMergeState>)
    requires |pages| == |verdicts| && |states| == |tables| && WellNumbered(pages, |tables|) && pages != []
    requires forall i {:trigger states[i]} :: 0 <= i < |states| ==> Holds(states[i], tables[i].rows)
    ensures Reached(pages, tables, verdicts, states, |pages| - 1)
  {
    hide Holds, MergedRows, HeaderCut;
    var last := |pages| - 1;
    forall q: nat | q < |pages|
      ensures BottomHolds(pages, tables, verdicts, states, last, q)
      ensures TopHolds(pages, tables, verdicts, states, last, q)
    {
      if pages[q].back.Some? {
        assert Names(pages[q], pages[q].back.value);
      }
      if pages[q].front.Some? {
        assert Names(pages[q], pages[q].front.value);
      }
    }
  }

  // ------------------------------------------ where the rows come from

  // Row `row` of table `table`, as it was parsed on page `page`.
  datatype Origin = Origin(page: nat, table: nat, row: nat)

  function OwnOrigins(page: nat, table: nat, n: nat): (r: seq<Origin>)
    ensures |r| == n && forall k {:trigger r[k]} :: 0 <= k < n ==> r[k] == Origin(page, table, k)
  {
    seq(n, k requires 0 <= k < n => Origin(page, table, k))
  }

  // Rows at the top of page p that the bottom table of the page before does not take: the
  // repeated header rows, and the first one after them if the cell merge empties it.
  ghost function SkippedRows(pages: seq<Page>, tables: seq<Table>, verdicts: seq<Verdict>, p: nat): nat
    requires |pages| == |verdicts| && WellNumbered(pages, |tables|) && Joins(pages, verdicts, p)
  {
    var above, top := Own(pages, tables, p - 1, pages[p - 1].back.value), Own(pages, tables, p, pages[p].front.value);
    var cur := TopRows(pages, tables, verdicts, p);
    var cut := HeaderCut(cur, verdicts[p].headerCount);
    cut + DroppedRows(above.rows, cur, top.cellMerge, cut)
  }

  predicate Appends(pages: seq<Page>, tables: seq<Table>, verdicts: seq<Verdict>, p: nat)
    requires |pages| == |verdicts| && WellNumbered(pages, |tables|) && Joins(pages, verdicts, p)
  {
    Own(pages, tables, p - 1, pages[p - 1].back.value).hasBody && Own(pages, tables, p, pages[p].front.value).hasBody
  }

  // The origins of page p's bottom rows: its own rows, then those of the table that joins it
  // from the skipped rows on.
  ghost function Origins(pages: seq<Page>, tables: seq<Table>, verdicts: seq<Verdict>, p: nat): seq<Origin>
    requires |pages| == |verdicts| && WellNumbered(pages, |tables|) && p < |pages| && pages[p].back.Some?
    decreases |pages| - p, 0
  {
    var id := pages[p].back.value;
    var own := OwnOrigins(p, id, |Own(pages, tables, p, id).rows|);
    if !Joins(pages, verdicts, p + 1) || !Appends(pages, tables, verdicts, p + 1) then own
    else
      var from, top := SkippedRows(pages, tables, verdicts, p + 1), TopOrigins(pages, tables, verdicts, p + 1);
      own + (if from <= |top| then top[from..] else [])
  }

  ghost function TopOrigins(pages: seq<Page>, tables: seq<Table>, verdicts: seq<Verdict>, p: nat): seq<Origin>
    requires |pages| == |verdicts| && WellNumbered(pages, |tables|) && p < |pages| && pages[p].front.Some?
    decreases |pages| - p, 1
  {
    if pages[p].front == pages[p].back then Origins(pages, tables, verdicts, p)
    else OwnOrigins(p, pages[p].front.value, |Own(pages, tables, p, pages[p].front.value).rows|)
  }

  // Row i is at the nearest boundary with flagged cells, of which `JoinBorder` speaks.
  ghost predicate BorderOfJoin(pages: seq<Page>, tables: seq<Table>, verdicts: seq<Verdict>, p: nat, i: nat)
    requires |pages| == |verdicts| && WellNumbered(pages, |tables|) && p < |pages| && pages[p].back.Some?
  {
    Joins(pages, verdicts, p + 1) &&
    (var own, top := Own(pages, tables, p, pages[p].back.value), Own(pages, tables, p + 1, pages[p + 1].front.value);
     var cur := TopRows(pages, tables, verdicts, p + 1);
     IsBorder(own.rows, cur, top.cellMerge, HeaderCut(cur, verdicts[p + 1].headerCount), i))
  }

  // Row i of page p's bottom table is one of the two rows at a boundary with flagged cells,
  // at this join or at one behind it.
  ghost predicate AtJoin(pages: seq<Page>, tables: seq<Table>, verdicts: seq<Verdict>, p: nat, i: nat)
    requires |pages| == |verdicts| && WellNumbered(pages, |tables|) && p < |pages| && pages[p].back.Some?
    decreases |pages| - p
  {
    var n := |Own(pages, tables, p, pages[p].back.value).rows|;
    || BorderOfJoin(pages, tables, verdicts, p, i)
    || (Joins(pages, verdicts, p + 1) && i >= n && pages[p + 1].front == pages[p + 1].back
        && AtJoin(pages, tables, verdicts, p + 1, i - n + SkippedRows(pages, tables, verdicts, p + 1)))
  }

  ghost predicate Earlier(a: Origin, b: Origin) {
    a.page < b.page || (a.page == b.page && a.table == b.table && a.row < b.row)
  }

  // Rows of named tables from page p on, page by page and top to bottom, none twice.
  ghost predicate InPageOrder(pages: seq<Page>, tables: seq<Table>, p: nat, origins: seq<Origin>) {
    && (forall i {:trigger origins[i]} :: 0 <= i < |origins| ==> IsRow(pages, tables, p, origins[i]))
    && forall i, j {:trigger origins[i], origins[j]} :: 0 <= i < j < |origins| ==> Earlier(origins[i], origins[j])
  }

  predicate IsRow(pages: seq<Page>, tables: seq<Table>, p: nat, o: Origin) {
    p <= o.page < |pages| && Names(pages[o.page], o.table) && o.table < |tables| && o.row < |tables[o.table].rows|
  }

  lemma OwnInOrder(pages: seq<Page>, tables: seq<Table>, p: nat, id: nat)
    requires WellNumbered(pages, |tables|) && p < |pages| && Names(pages[p], id)
    ensures InPageOrder(pages, tables, p, OwnOrigins(p, id, |tables[id].rows|))
  {
  }

  lemma InOrderSum(pages: seq<Page>, tables: seq<Table>, p: nat, own: seq<Origin>, rest: seq<Origin>, from: nat)
    requires InPageOrder(pages, tables, p, own) && InPageOrder(pages, tables, p + 1, rest) && from <= |rest|
    requires forall i {:trigger own[i]} :: 0 <= i < |own| ==> own[i].page == p
    ensures InPageOrder(pages, tables, p, own + rest[from..])
  {
    hide IsRow;
    var sum := own + rest[from..];
    forall i {:trigger sum[i]} | 0 <= i < |sum| ensures IsRow(pages, tables, p, sum[i]) {
      if i >= |own| {
        RowFromLater(pages, tables, p, rest[i - |own| + from]);
      }
    }
    forall i, j {:trigger sum[i], sum[j]} | 0 <= i < j < |sum| ensures Earlier(sum[i], sum[j]) {
      if i < |own| <= j {
        RowFromLater(pages, tables, p, rest[j - |own| + from]);
      }
    }
  }

  lemma RowFromLater(pages: seq<Page>, tables: seq<Table>, p: nat, o: Origin)
    requires IsRow(pages, tables, p + 1, o)
    ensures IsRow(pages, tables, p, o) && o.page > p
  {
  }

  // For every run: a surviving table's rows are its own rows followed, page by page, by the rows
  // of the tables that joined it, each once and in order, without those skipped.
  lemma {:induction false} RowsInPageOrder(pages: seq<Page>, tables: seq<Table>, verdicts: seq<Verdict>, p: nat)
    requires |pages| == |verdicts| && WellNumbered(pages, |tables|) && p < |pages| && pages[p].back.Some?
    ensures |BottomRows(pages, tables, verdicts, p)| == |Origins(pages, tables, verdicts, p)|
    ensures InPageOrder(pages, tables, p, Origins(pages, tables, verdicts, p))
    decreases |pages| - p
  {
    hide MergedRows, HeaderCut, InPageOrder, DroppedRows;
    var id := pages[p].back.value;
    assert Names(pages[p], id);
    OwnInOrder(pages, tables, p, id);
    if Joins(pages, verdicts, p + 1) {
      assert Names(pages[p + 1], pages[p + 1].front.value);
      if pages[p + 1].front == pages[p + 1].back {
        RowsInPageOrder(pages, tables, verdicts, p + 1);
      } else {
        OwnInOrder(pages, tables, p + 1, pages[p + 1].front.value);
      }
      JoinedCount(pages, tables, verdicts, p);
      var top, from := TopOrigins(pages, tables, verdicts, p + 1), SkippedRows(pages, tables, verdicts, p + 1);
      if from <= |top| {
        InOrderSum(pages, tables, p, OwnOrigins(p, id, |tables[id].rows|), top, from);
      } else {
        assert OwnOrigins(p, id, |tables[id].rows|) + [] == OwnOrigins(p, id, |tables[id].rows|);
      }
    }
  }

  lemma JoinedCount(pages: seq<Page>, tables: seq<Table>, verdicts: seq<Verdict>, p: nat)
    requires |pages| == |verdicts| && WellNumbered(pages, |tables|) && Joins(pages, verdicts, p + 1)
    ensures var cur := TopRows(pages, tables, verdicts, p + 1);
      var from, n := SkippedRows(pages, tables, verdicts, p + 1), |Own(pages, tables, p, pages[p].back.value).rows|;
      |BottomRows(pages, tables, verdicts, p)| ==
        n + (if Appends(pages, tables, verdicts, p + 1) && from <= |cur| then |cur| - from else 0)
  {
    hide MergedRows, DroppedRows, TopRows;
    assert Names(pages[p], pages[p].back.value) && Names(pages[p + 1], pages[p + 1].front.value);
    var own, top := Own(pages, tables, p, pages[p].back.value), Own(pages, tables, p + 1, pages[p + 1].front.value);
    var cur := TopRows(pages, tables, verdicts, p + 1);
    var cut := HeaderCut(cur, verdicts[p + 1].headerCount);
    MergedRowsCount(own.rows, cur, top.cellMerge, cut, own.hasBody && top.hasBody);
  }

  // Every row away from a boundary with flagged cells has the content it had when it was parsed.
  lemma {:induction false} RowsKeepContent(pages: seq<Page>, tables: seq<Table>, verdicts: seq<Verdict>, p: nat, i: nat)
    requires |pages| == |verdicts| && WellNumbered(pages, |tables|) && p < |pages| && pages[p].back.Some?
    requires i < |BottomRows(pages, tables, verdicts, p)| && !AtJoin(pages, tables, verdicts, p, i)
    ensures |BottomRows(pages, tables, verdicts, p)| == |Origins(pages, tables, verdicts, p)|
    ensures var o := Origins(pages, tables, verdicts, p)[i];
      && IsRow(pages, tables, p, o)
      && RowSemantic(BottomRows(pages, tables, verdicts, p)[i]) == RowSemantic(tables[o.table].rows[o.row])
    decreases |pages| - p
  {
    hide MergedRows, HeaderCut, InPageOrder, DroppedRows, IsBorder, RowSemantic;
    RowsInPageOrder(pages, tables, verdicts, p);
    OriginIsRow(pages, tables, verdicts, p, i);
    if Joins(pages, verdicts, p + 1) {
      assert Names(pages[p], pages[p].back.value) && Names(pages[p + 1], pages[p + 1].front.value);
      var own, top := Own(pages, tables, p, pages[p].back.value), Own(pages, tables, p + 1, pages[p + 1].front.value);
      var cur := TopRows(pages, tables, verdicts, p + 1);
      var cut := HeaderCut(cur, verdicts[p + 1].headerCount);
      MergedRowOrigin(own.rows, cur, top.cellMerge, cut, own.hasBody && top.hasBody, i);
      if i >= |own.rows| && pages[p + 1].front == pages[p + 1].back {
        RowsKeepContent(pages, tables, verdicts, p + 1, i - |own.rows| + SkippedRows(pages, tables, verdicts, p + 1));
      }
    }
  }

  lemma OriginIsRow(pages: seq<Page>, tables: seq<Table>, verdicts: seq<Verdict>, p: nat, i: nat)
    requires |pages| == |verdicts| && WellNumbered(pages, |tables|) && p < |pages| && pages[p].back.Some?
    requires i < |Origins(pages, tables, verdicts, p)|
    ensures IsRow(pages, tables, p, Origins(pages, tables, verdicts, p)[i])
  {
    hide Origins, IsRow;
    RowsInPageOrder(pages, tables, verdicts, p);
  }

  // At a boundary with flagged cells, the upper row's cells keep their content and receive what
  // the aligned cells below held; the lower row, if it stays, has just those cells empty.
  lemma JoinBorder(pages: seq<Page>, tables: seq<Table>, verdicts: seq<Verdict>, p: nat)
    requires |pages| == |verdicts| && WellNumbered(pages, |tables|) && Joins(pages, verdicts, p + 1)
    ensures var own := Own(pages, tables, p, pages[p].back.value);
      var top := Own(pages, tables, p + 1, pages[p + 1].front.value);
      var cur := TopRows(pages, tables, verdicts, p + 1);
      var cut := HeaderCut(cur, verdicts[p + 1].headerCount);
      MergesCells(own.rows, cur, top.cellMerge, cut) ==>
        && |BottomRows(pages, tables, verdicts, p)| >= |own.rows|
        && AtBorder(own.rows, cur, top.cellMerge, cut, BottomRows(pages, tables, verdicts, p))
  {
    hide MergedRows, HeaderCut, TopRows, AtBorder;
    assert Names(pages[p], pages[p].back.value) && Names(pages[p + 1], pages[p + 1].front.value);
    var own, top := Own(pages, tables, p, pages[p].back.value), Own(pages, tables, p + 1, pages[p + 1].front.value);
    var cur := TopRows(pages, tables, verdicts, p + 1);
    var cut := HeaderCut(cur, verdicts[p + 1].headerCount);
    if MergesCells(own.rows, cur, top.cellMerge, cut) {
      BorderReached(own.rows, cur, top.cellMerge, cut, own.hasBody && top.hasBody);
    }
  }

  // The page at whose join, or among whose own rows, row i of page p's bottom table got its
  // content, and its row there.
  ghost function Settled(pages: seq<Page>, tables: seq<Table>, verdicts: seq<Verdict>, p: nat, i: nat): (nat, nat)
    requires |pages| == |verdicts| && WellNumbered(pages, |tables|) && p < |pages| && pages[p].back.Some?
    decreases |pages| - p
  {
    var own := Own(pages, tables, p, pages[p].back.value).rows;
    if i < |own| || BorderOfJoin(pages, tables, verdicts, p, i) || !Joins(pages, verdicts, p + 1)
       || pages[p + 1].front != pages[p + 1].back then (p, i)
    else Settled(pages, tables, verdicts, p + 1, i - |own| + SkippedRows(pages, tables, verdicts, p + 1))
  }

  // Over the whole run, a row at any boundary with flagged cells keeps the content that its own
  // join gave it, however many tables are joined in front of it afterwards.
  lemma {:induction false} RowsSettle(pages: seq<Page>, tables: seq<Table>, verdicts: seq<Verdict>, p: nat, i: nat)
    requires |pages| == |verdicts| && WellNumbered(pages, |tables|) && p < |pages| && pages[p].back.Some?
    requires i < |BottomRows(pages, tables, verdicts, p)|
    ensures var (q, k) := Settled(pages, tables, verdicts, p, i);
      && p <= q < |pages| && pages[q].back.Some? && k < |BottomRows(pages, tables, verdicts, q)|
      && RowSemantic(BottomRows(pages, tables, verdicts, p)[i]) ==
         RowSemantic(BottomRows(pages, tables, verdicts, q)[k])
      && (AtJoin(pages, tables, verdicts, p, i) <==> BorderOfJoin(pages, tables, verdicts, q, k))
    decreases |pages| - p
  {
    hide MergedRows, HeaderCut, DroppedRows, IsBorder, RowSemantic;
    var own := Own(pages, tables, p, pages[p].back.value);
    if !(i < |own.rows| || BorderOfJoin(pages, tables, verdicts, p, i) || !Joins(pages, verdicts, p + 1)
         || pages[p + 1].front != pages[p + 1].back) {
      var top, cur := Own(pages, tables, p + 1, pages[p + 1].front.value), TopRows(pages, tables, verdicts, p + 1);
      var cut := HeaderCut(cur, verdicts[p + 1].headerCount);
      assert Names(pages[p], pages[p].back.value) && Names(pages[p + 1], pages[p + 1].front.value);
      MergedRowOrigin(own.rows, cur, top.cellMerge, cut, own.hasBody && top.hasBody, i);
      RowsSettle(pages, tables, verdicts, p + 1, i - |own.rows| + SkippedRows(pages, tables, verdicts, p + 1));
    }
  }

  // ------------------------------------------------ what the run conserves

  predicate AllHaveBody(tables: seq<Table>) {
    forall i :: 0 <= i < |tables| ==> tables[i].hasBody
  }

  // The semantic nodes of a chain of joined tables, and of the header rows cut off it.
  ghost function OwnBag(pages: seq<Page>, tables: seq<Table>, verdicts: seq<Verdict>, p: nat): multiset<Node>
    requires |pages| == |verdicts| && WellNumbered(pages, |tables|) && p < |pages| && pages[p].back.Some?
    decreases |pages| - p
  {
    var own := RowsBag(Own(pages, tables, p, pages[p].back.value).rows);
    if !Joins(pages, verdicts, p + 1) then own
    else if pages[p + 1].front == pages[p + 1].back then own + OwnBag(pages, tables, verdicts, p + 1)
    else own + RowsBag(Own(pages, tables, p + 1, pages[p + 1].front.value).rows)
  }

  ghost function CutBag(pages: seq<Page>, tables: seq<Table>, verdicts: seq<Verdict>, p: nat): multiset<Node>
    requires |pages| == |verdicts| && WellNumbered(pages, |tables|) && p < |pages| && pages[p].back.Some?
    decreases |pages| - p
  {
    if !Joins(pages, verdicts, p + 1) then multiset{} else
      var cur := TopRows(pages, tables, verdicts, p + 1);
      var cut := HeaderCut(cur, verdicts[p + 1].headerCount);
      (if cut <= |cur| then RowsBag(cur[..cut]) else multiset{})
      + (if pages[p + 1].front == pages[p + 1].back then CutBag(pages, tables, verdicts, p + 1) else multiset{})
  }

  lemma MergeBag(prev: seq<Row>, cur: seq<Row>, flags: seq<int>, cut: nat)
    requires cur != [] ==> cut <= |cur|
    ensures RowsBag(MergedRows(prev, cur, flags, cut, true))
      + (if cut <= |cur| then RowsBag(cur[..cut]) else multiset{}) == RowsBag(prev) + RowsBag(cur)
  {
    hide RowSemantic, MergedRows, RowsBag;
    if cut <= |cur| {
      CutSum(cur, cut);
      MergedRowsMerge(prev, cur, flags, cut);
    } else {
      EmptyCurrent(prev, cur, flags, cut);
      EmptyBag();
    }
  }

  lemma CutSum(rows: seq<Row>, cut: nat)
    requires cut <= |rows|
    ensures RowsBag(rows) == RowsBag(rows[..cut]) + RowsBag(rows[cut..])
  {
    assert rows == rows[..cut] + rows[cut..];
    RowsBagSum(rows[..cut], rows[cut..]);
  }

  lemma EmptyBag()
    ensures RowsBag([]) == multiset{}
  {
  }

  lemma EmptyCurrent(prev: seq<Row>, cur: seq<Row>, flags: seq<int>, cut: nat)
    requires cur == [] && cut > |cur|
    ensures MergedRows(prev, cur, flags, cut, true) == prev
  {
  }

  lemma BagsChain(merged: multiset<Node>, cutOff: multiset<Node>, own: multiset<Node>, cur: multiset<Node>,
                  rest: multiset<Node>)
    requires merged + cutOff == own + cur
    ensures merged + (cutOff + rest) == own + (cur + rest)
  {
    assert merged + (cutOff + rest) == (merged + cutOff) + rest;
  }

  // Over the whole run no semantic node is lost or duplicated: what a surviving table holds,
  // together with the header rows cut off on the way, is what its chain of tables held.
  lemma {:induction false} RunConserves(pages: seq<Page>, tables: seq<Table>, verdicts: seq<Verdict>, p: nat)
    requires |pages| == |verdicts| && WellNumbered(pages, |tables|) && p < |pages| && pages[p].back.Some?
    requires AllHaveBody(tables)
    ensures RowsBag(BottomRows(pages, tables, verdicts, p)) + CutBag(pages, tables, verdicts, p) ==
      OwnBag(pages, tables, verdicts, p)
    decreases |pages| - p
  {
    hide MergedRows, HeaderCut, RowsBag;
    if Joins(pages, verdicts, p + 1) {
      assert Names(pages[p], pages[p].back.value) && Names(pages[p + 1], pages[p + 1].front.value);
      if pages[p + 1].front == pages[p + 1].back {
        RunConserves(pages, tables, verdicts, p + 1);
      }
      var cur := TopRows(pages, tables, verdicts, p + 1);
      var own, top := Own(pages, tables, p, pages[p].back.value), Own(pages, tables, p + 1, pages[p + 1].front.value);
      var cut := HeaderCut(cur, verdicts[p + 1].headerCount);
      MergeBag(own.rows, cur, top.cellMerge, cut);
      var merged := BottomRows(pages, tables, verdicts, p);
      var cutOff := if cut <= |cur| then RowsBag(cur[..cut]) else multiset{};
      assert RowsBag(merged) + cutOff == RowsBag(own.rows) + RowsBag(cur);
      if pages[p + 1].front == pages[p + 1].back {
        var rest := CutBag(pages, tables, verdicts, p + 1);
        assert CutBag(pages, tables, verdicts, p) == cutOff + rest;
        assert OwnBag(pages, tables, verdicts, p) == RowsBag(own.rows) + OwnBag(pages, tables, verdicts, p + 1);
        BagsChain(RowsBag(merged), cutOff, RowsBag(own.rows), RowsBag(cur), rest);
      } else {
        assert CutBag(pages, tables, verdicts, p) == cutOff + multiset{} == cutOff;
        assert OwnBag(pages, tables, verdicts, p) == RowsBag(own.rows) + RowsBag(cur);
      }
    }
  }
}
