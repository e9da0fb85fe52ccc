# MinerU: tables, tasks, names and layout indexes

A Dafny model of the logic in MinerU that decides something hard: how a table split over
pages is put together again, how the servers schedule and track work, how documents are
grouped and named, and how spatial indexes stand in for exhaustive searches.

Where the code works by changing things step by step, the model has methods with loops, or a
class with the source's fields, proved against a specification function; the laws are lemmas
about that function. Concurrent code is a state machine whose steps last from one await to
the next; a run is any sequence of enabled steps, so its lemmas hold for every interleaving.

## What each file models

- `table_grid.dfy`, `table_layout.dfy`, `table_scan.dfy`, `table_header.dfy`: placing cells with
  column and row spans in a grid (a simplified form of section 4.9.12.1 of the WHATWG HTML Living
  Standard; where they differ the code is followed), the visual columns of a row, and cutting
  off repeated header rows.
- `table_carry.dfy`, `table_carry_layout.dfy`, `table_area.dfy`, `table_carry_exact.dfy`: sinking
  placeholder cells when a row is deleted, and exactly when that keeps the layout.
- `table_cell_merge.dfy`, `table_aligned.dfy`: moving cell contents, by columns as the code does
  and by aligned cells as it means.
- `table_adjust.dfy`, `table_widening.dfy`, `table_clip_layout.dfy`: widening and clipping, the
  width rows end with, and when clipping keeps the layout.
- `table_merge.dfy`, `table_merge_widths.dfy`, `table_pages.dfy`: one merge with its cached
  metrics, the widths it leaves, and the backward loop over the pages.
- `planning.dfy`, `executor.dfy`: grouping documents into tasks and running them on workers.
- `task_manager.dfy`, `limiter.dfy`, `router.dfy`: the server's task manager, the request
  limiter with its interruptions, and the router's scheduling and retry.
- `utf8.dfy`, `stems.dfy`: UTF-8, truncation to whole characters, and unique output names.
- `boxes.dfy`, `spans.dfy`, `char_fill.dfy`, `dedup.dfy`: spans by block, characters by span,
  and dropping repeated characters.
- `tie_up.dfy`, `intervals.dfy`: captions and footnotes by reading order, and interval removal.
- `wrappers.dfy`, `counting.dfy`, `sorting.dfy`: options, finite counting and the stable sort.

## How the source is read

- A table is a sequence of rows, a row a sequence of cells with colspan, rowspan and content.
  Cell content is a sequence of nodes; text that is not blank and media count as semantic.
- What other parts decide comes in as a parameter: whether two tables may merge (a block
  without a readable table counts as one that may not), how many header rows they share, a
  page's blocks; whether a job raises; the shuffle; the answers of upstream servers; distances
  between boxes; case folding of a character; which characters are white space.
- An asyncio queue, semaphore and event are small specifications: first in first out, a number
  of free permits, a flag that stays set. The limiter's semaphore may hand a permit to any of
  its waiters, and a cancelled helper that was handed one gives it back.
- Coordinates and scores are reals, so the results say nothing about rounding.

Where the code and its own words differ, the code is modelled:

- The cell merge is described as deleting the row when all flags are 1; the code deletes it
  when no semantic content is left in it, whatever the flags (lines 945 and 1013
  of `MinerU/mineru/utils/table_merge.py`).
- The emptied row is taken from the list by equality of markup, so an equal header row may be
  removed in its place; `TableMerge.RemoveEqualRow` shows the kept rows are the same.

Four claims one could expect are false in general; the model proves when they hold:

- Sinking an emptied row's placeholders keeps all slots of the next row if and only if no rowspan
  is open from the page before and that row tiles its columns (`TableCarryExact.SinkingIsExact`);
  every later row then keeps its columns (`TableMerge.DroppedRowKeepsLayout`). It fails for the
  rows of `TableCarryExact.SinkingCanMoveCells`, which do not tile, and below the open rowspan
  of `TableCarryExact.OpenRowspanMovesCells`.
- Widening a row brings it to the other table's width exactly in the cases, one for each branch,
  of `TableWidening.AdjustReaches`. The reference's colspans miss it in
  `TableWidening.StructureMisses`, the wider last cell in `TableWidening.WideningMisses`.
- A wait token is gone once its request is over if and only if the request was not interrupted
  again during its cleanup (`Limiter.TokenLeftBehind`), as it is in the run of
  `Limiter.TokenCanBeLeft`; no permit is lost either way.
- The grid index agrees with an exhaustive search for all boxes if and only if the threshold is
  not negative (`Spans.IndexNeedsThreshold`).

## Model

| member | source | states |
|---|---|---|
| TableGrid.ScanRows | MinerU/mineru/utils/table_merge.py:78-146 | the row loop computes the specification `Scan`: per-row metrics, the table's width, the last row with cells and the rowspans open past the end, for any rows and any carried-in occupancy |
| TableGrid.PlaceCells | MinerU/mineru/utils/table_merge.py:103-118 | one row's cells land in the free columns left to right, stamping every row they span; the widest column and the sum of colspans come out with them |
| TableGrid.FirstFreeColumn | MinerU/mineru/utils/table_merge.py:104-105 | the least column from the cursor on that is free in the row |
| TableGrid.ScanComposes | MinerU/mineru/utils/table_merge.py:78-146 | scanning A followed by B is scanning A and then B with A's open rowspans and row offset: metrics concatenate, widths take the maximum, the last non-empty row and the open rowspans agree |
| TableGrid.CarryWidth | MinerU/mineru/utils/table_merge.py:134-138 | columns still open after a scan lie within its total width |
| TableScan.OccupiedMeans | MinerU/mineru/utils/table_merge.py:97-118 | a column of a row is occupied exactly if the previous page left it open there or a cell of that row or a row above spans it |
| TableScan.MetricsAt | MinerU/mineru/utils/table_merge.py:122-131 | each row's metrics: its index, one more than its greatest occupied column, the sum of its colspans, and its number of cells |
| TableScan.LastMeans | MinerU/mineru/utils/table_merge.py:95-131 | the last row with cells is the one no later row with cells follows, with its own metrics; none if all rows are empty |
| TableScan.TotalMeans | MinerU/mineru/utils/table_merge.py:97-123 | the width holds every column left open and every cell's end, and one of these reaches it |
| TableLayout.ScanRowVisualSources | MinerU/mineru/utils/table_merge.py:402-447 | for any row index, negative ones included, the second scan gives the source of each occupied column of that row and the width so far |
| TableLayout.VisualSourcesAgree | MinerU/mineru/utils/table_merge.py:402-447 | its columns are exactly those the first scan finds occupied; a column of an explicit cell names that cell, an inherited one an earlier row |
| TableScan.VisualSourceMeans | MinerU/mineru/utils/table_merge.py:402-447 | the source of a column is the cell that spans it, of the last row that has one; the previous page's marker only where no cell does |
| TableLayout.BuildVisualColMapping | MinerU/mineru/utils/table_merge.py:450-480 | the start columns re-derived from the finished occupancy are those the forward scan gave the explicit cells |
| TableLayout.StartsSorted | MinerU/mineru/utils/table_merge.py:97-120 | the explicit cells of a row start in free columns, in order, each after the one before ends |
| TableLayout.BuildRowRenderedCellSegments | MinerU/mineru/utils/table_merge.py:483-538 | the segment loop returns the maximal runs of columns with one source, each named by its source |
| TableLayout.CalculateRowRenderedSegments | MinerU/mineru/utils/table_merge.py:541-565 | counts those runs without building them; it is their number when nothing is carried in |
| TableLayout.SegmentsCoverOccupied | MinerU/mineru/utils/table_merge.py:483-538 | rendered segments are non-empty, sorted, disjoint, name the source of each of their columns, and cover exactly the columns the first scan finds occupied |
| TableLayout.RunsStepCount | MinerU/mineru/utils/table_merge.py:555-563 | a segment begins exactly where a column's source differs from its left neighbour's |
| TableHeader.ExpandHeaderCountByRowspan | MinerU/mineru/utils/table_merge.py:637-658 | the result is the least cut from the given count on, capped at the table's length, that no skipped row's rowspan crosses |
| TableHeader.ClosedIffNothingCarried | MinerU/mineru/utils/table_merge.py:637-658 | a cut is crossed by no rowspan exactly when scanning the skipped rows leaves nothing open |
| TableHeader.ClosedCarriesNothing | MinerU/mineru/utils/table_merge.py:637-658 | behind such a cut the kept rows start from an empty occupancy |
| TableHeader.KeptRowsScanAlone | MinerU/mineru/utils/table_merge.py:740-742 | scanning the kept rows alone gives the slice of the full scan that the merge code indexes into, and the same start columns |
| TableCarry.InsertCellBeforeVisualColumn | MinerU/mineru/utils/table_merge.py:826-837 | inserts before the first cell that starts at or right of the column, else at the end |
| TableCarry.CollectCarriedCells | MinerU/mineru/utils/table_merge.py:846-862 | the blank cells with a rowspan over one, with their columns and one row less |
| TableCarry.CarryRowspanStructureToNextRow | MinerU/mineru/utils/table_merge.py:840-865 | sinks them into the next row from right to left, recomputing the mapping before each insertion |
| TableCarryLayout.InsertOne | MinerU/mineru/utils/table_merge.py:826-837 | in a row that tiles its columns, inserting by the recomputed mapping puts the cell at its intended column and keeps the others |
| TableCarryLayout.SinkingKeepsRow | MinerU/mineru/utils/table_merge.py:840-865 | after the sinking the next row alone takes the slots both rows had together, when it tiles its columns |
| TableCarryLayout.SinkingKeepsLaterRows | MinerU/mineru/utils/table_merge.py:1013-1017 | deleting the emptied row afterwards keeps every later row's cells in their columns and the same rowspans open |
| TableCarryExact.SinkingIsExact | MinerU/mineru/utils/table_merge.py:840-865 | whatever rowspans are open from above: the row that sinking leaves takes the slots both rows had, lying over nothing open, if and only if no rowspan is open and the next row tiles its columns, with no overlap with inherited ones and no gap left of one |
| TableCarryExact.SinkingCanMoveCells | MinerU/mineru/utils/table_merge.py:840-865 | a placeholder and a wide cell over a row whose one cell overlaps the wide one: that row does not tile, and sinking the placeholder does not keep the slots |
| TableCarryExact.NothingIsOpen | MinerU/mineru/utils/table_merge.py:840-865 | equal slots are equal areas: after the deletion an open rowspan reaches one row further down the table than before, so slots can only be kept with none open |
| TableCarryExact.OpenRowspanMovesCells | MinerU/mineru/utils/table_merge.py:1013-1017 | one column open for one more row, and two rows of one cell: the second row tiles, but what sinking leaves of the two starts at column 1 instead of 0 |
| TableCarryExact.OverlapHidesStretch | MinerU/mineru/utils/table_merge.py:840-865 | why lying over nothing is asked for: a wide cell can come to lie over the open column, and then the slots agree |
| TableArea.CarryHangs | MinerU/mineru/utils/table_merge.py:134-138 | the rowspans a scan leaves open hang from the row scanned next, without a break |
| TableArea.SunkArea | MinerU/mineru/utils/table_merge.py:846-865 | the next row grows by exactly the area of the placeholders that sink into it |
| TableCellMerge.VisualColumnToCell | MinerU/mineru/utils/table_merge.py:978-988 | the column-to-cell dictionary built by the two loops |
| TableCellMerge.ColumnMapMeaning | MinerU/mineru/utils/table_merge.py:978-988 | a column leads to a cell exactly when that cell's span covers it |
| TableCellMerge.TransferCells | MinerU/mineru/utils/table_merge.py:990-1011 | the two flag loops, with their once-per-pair and once-per-cell sets, move the contents as the specification `Transfer` does |
| TableCellMerge.TransferMeaning | MinerU/mineru/utils/table_merge.py:990-1011 | each upper cell ends with its own content followed by what each aligned lower cell held when its first flagged column came; exactly the lower cells that gave content end empty |
| TableCellMerge.TransferConserves | MinerU/mineru/utils/table_merge.py:990-1011 | no child node is lost or duplicated by the move, and so no semantic one |
| TableAligned.TransferIsAligned | MinerU/mineru/utils/table_merge.py:978-1011 | stated by cells instead of columns: an upper cell keeps its content and receives, left to right, the content of each lower cell whose first flagged column that both rows cover lies in it; exactly these lower cells end empty and the others stay as they were |
| TableAligned.ArrivalsByCell | MinerU/mineru/utils/table_merge.py:990-1001 | taking the flagged columns left to right gives each upper cell its arrivals in the order of the lower cells, each once |
| TableCellMerge.CarryDownKeepsContent | MinerU/mineru/utils/table_merge.py:840-865 | sinking placeholders changes no row's semantic content |
| TableAdjust.AdjustTableRowsColspan | MinerU/mineru/utils/table_merge.py:769-807 | the row loop widens the rows of its range one by one and leaves the others; how wide that makes each is `TableWidening.AdjustReaches` |
| TableAdjust.AdjustOneRow | MinerU/mineru/utils/table_merge.py:782-807 | the loop over one row's cells and the widening of its last cell make up `AdjustRow`: no change, the reference's colspans above one, or the last cell wider |
| TableAdjust.CalculateRowColumns | MinerU/mineru/utils/table_merge.py:384-393 | the loop's count is the sum of the colspans |
| TableAdjust.CheckRowColumnsMatch | MinerU/mineru/utils/table_merge.py:756-766 | true exactly when the two rows have the same colspans, cell by cell |
| TableAdjust.AdjustKeepsContent | MinerU/mineru/utils/table_merge.py:769-807 | widening keeps every row's semantic content |
| TableWidening.WidthOfRow | MinerU/mineru/utils/table_merge.py:97-131 | a row's effective width is where its last cell that takes up a slot ends, or where the inherited columns do, whichever is further right |
| TableWidening.AdjustReaches | MinerU/mineru/utils/table_merge.py:782-807 | an adjusted row has the target width if and only if: left alone, it had it before; given the reference's colspans, there are enough of them and they and the inherited columns add up to the target; its last cell widened, that cell takes up slots and the row's own cells made up its effective width |
| TableWidening.FillsTo | MinerU/mineru/utils/table_merge.py:795-800 | that sum finds where the row ends, since no column left of a row's end stays free; a row that overlaps an inherited column, or has a cell without slots, is judged by where its cells reach |
| TableWidening.AdjustedWidth | MinerU/mineru/utils/table_merge.py:769-807 | the width of an adjusted row whatever columns the rows above, adjusted too, leave open in it |
| TableWidening.StructureMisses | MinerU/mineru/utils/table_merge.py:795-800 | three cells that take colspans 2, 1 and 1 end at 4 in a table 5 wide |
| TableWidening.WideningMisses | MinerU/mineru/utils/table_merge.py:801-807 | a cell with a free column before an inherited one grows into the gap and stays at 3 of 4 |
| TableAdjust.ClipOneRow | MinerU/mineru/utils/table_merge.py:885-920 | which cells of a row are clipped, which are moved where, and that nothing clipped means nothing changed |
| TableAdjust.ClipOverlappedBlankRowspanCells | MinerU/mineru/utils/table_merge.py:868-935 | the whole clipping: mappings taken before any change, then moves from the lowest, rightmost cell on |
| TableAdjust.ClipKeepsContent | MinerU/mineru/utils/table_merge.py:868-935 | clipping and moving placeholders keeps every row's semantic content |
| TableClipLayout.ClipIsExact | MinerU/mineru/utils/table_merge.py:868-935 | when the open rowspans cover the clipped placeholders whole, so that nothing is moved: below them all remaining cells keep their columns if and only if none of them starts in an open slot; the rows then take the slots they took before and the open ones, and leave the same rowspans open |
| TableClipLayout.ClipsMeans | MinerU/mineru/utils/table_merge.py:885-906 | a cell is clipped exactly if it is blank, spans several rows, and open slots cover its first row, and either all of it or so that a row is left for the rest |
| TableClipLayout.MovesMeans | MinerU/mineru/utils/table_merge.py:905-918 | what is moved of a row are the uncovered parts of its clipped cells, each to the first row where it is not covered, in its columns |
| TableClipLayout.ClipCells | MinerU/mineru/utils/table_merge.py:922-935 | every row ends with its own cells that stay and the parts moved to it, and no others |
| TableMerge.TableMergeState.constructor | MinerU/mineru/utils/table_merge.py:272-305 | a new state's caches are those of a scan of its rows |
| TableMerge.TableMergeState.Refresh | MinerU/mineru/utils/table_merge.py:263-269 | recomputes the caches by a full scan |
| TableMerge.TableMergeState.Append | MinerU/mineru/utils/table_merge.py:1083-1105 | appending rows and updating the caches from a scan seeded with the open rowspans leaves the caches a full scan of all rows would give |
| TableMerge.RemoveEqualRow | MinerU/mineru/utils/table_merge.py:1015-1017 | removing the first row equal to the emptied one may take a header row instead, but the rows from the cut on come out the same |
| TableMerge.ApplyCellMerge | MinerU/mineru/utils/table_merge.py:938-1017 | the contents of the last and the first kept row are moved; the emptied row is dropped after its placeholders sank, else kept |
| TableMerge.CellMergeKeepsMetrics | MinerU/mineru/utils/table_merge.py:938-1017 | the cell merge does not change any cached metric of the previous table, so no refresh is missing |
| TableMerge.MatchWidths | MinerU/mineru/utils/table_merge.py:1040-1079 | the narrower table's rows are widened, and the previous table's caches refreshed if it was that one; what that makes of the rows is `TableMergeWidths.MergeWidens` |
| TableMerge.ClipCurrent | MinerU/mineru/utils/table_merge.py:1035-1038 | clips the current table's kept rows against the previous open rowspans and refreshes its caches |
| TableMerge.MoveAndAppend | MinerU/mineru/utils/table_merge.py:1081-1105 | cell merge and append together leave the caches right and the rows of the specification |
| TableMerge.PerformTableMerge | MinerU/mineru/utils/table_merge.py:1020-1120 | for any two tables with right caches and any header count, the surviving table's caches equal those of a fresh scan of its whole row list, and its rows are `MergedRows` |
| TableMergeWidths.MergeWidens | MinerU/mineru/utils/table_merge.py:1035-1105 | of the two tables, the current one clipped, every row of the narrower one has its colspans as the other table's boundary row and its own one say, row by row and column by column, and reaches the other table's width exactly in the cases of `TableWidening.AdjustReaches`; all rows of the wider one, or of both if they are as wide, keep their spans; where a dropped row's placeholders sank into a row, they come beside those cells |
| TableMergeWidths.NothingToWiden | MinerU/mineru/utils/table_merge.py:1035-1105 | with an empty previous table, or nothing kept of the current one, the clipped rows are appended as they are |
| TableMerge.MergedRowsMerge | MinerU/mineru/utils/table_merge.py:1020-1105 | those rows are the previous rows followed by the current ones from the cut on, each once and in order, with their content and with the semantic nodes adding up; the last previous row holds, cell by cell, what it had followed by what arrives from the aligned cells of the first kept row, and that row holds the rest, or is dropped when nothing is left in it |
| TableMerge.MergedPairIsAligned | MinerU/mineru/utils/table_merge.py:965-1011 | the merge of the two boundary rows is the aligned transfer, between the last previous row and the first kept one in the columns the full scans give them |
| TableMerge.BorderColumns | MinerU/mineru/utils/table_merge.py:961-976 | the columns used for the two boundary rows are those a scan of both tables' rows together gives them |
| TableMerge.BorderReached | MinerU/mineru/utils/table_merge.py:1020-1105 | in the merged table the two boundary rows are the outcome of that transfer, with or without a body to append to |
| TableMerge.MergedRowOrigin | MinerU/mineru/utils/table_merge.py:1020-1105 | every other row of the merged table has the content of the row it comes from: the same row of the previous table, or the current one's row that much further on |
| TableMerge.DroppedRowKeepsLayout | MinerU/mineru/utils/table_merge.py:1013-1017 | when the first kept row is emptied and deleted, the next row's slots below the previous page's open rowspans are kept if and only if there are none and the next row tiles; then all later rows keep their columns |
| TablePages.HandlePage | MinerU/mineru/utils/table_merge.py:1128-1175 | one turn of the backward loop keeps every table's rows and caches as the specification gathers them |
| TablePages.MergeTable | MinerU/mineru/utils/table_merge.py:1123-1179 | after the whole run each page's bottom table, unless it was the page's only block and went into the table before it, holds the rows gathered from the pages behind it, with right caches; top tables that did not go into the table before them hold their own |
| TablePages.GatheredStep | MinerU/mineru/utils/table_merge.py:1123-1160 | what is gathered: the table alone if the next page has no table on top or it may not be merged, else one merge with that table as it stands at its page's turn |
| TablePages.RowsInPageOrder | MinerU/mineru/utils/table_merge.py:1123-1179 | for every run, with cell merges or without: a surviving table has one row for each of its origins, which are its own rows and then, page by page, the rows of each joined table from its header cut on, less the one an emptying merge drops, each once and in order |
| TablePages.RowsKeepContent | MinerU/mineru/utils/table_merge.py:1123-1179 | each row away from a join with flagged cells has the content its origin had when it was parsed |
| TablePages.JoinBorder | MinerU/mineru/utils/table_merge.py:1123-1179 | at a join with flagged cells the two boundary rows are the aligned transfer of the last own row and the joined table's first kept one |
| TablePages.RowsSettle | MinerU/mineru/utils/table_merge.py:1123-1179 | for every run and every row: the row has the content it got at its own join, however far back in the chain, or as one of its page's own rows; later joins leave it alone |
| TablePages.RunConserves | MinerU/mineru/utils/table_merge.py:1123-1179 | what a surviving table holds and the header rows cut off on the way are together the semantic nodes of the whole chain, none lost or doubled |
| Planning.SelectBatch | MinerU/mineru/cli/client.py:630-636 | the batch with room that has the fewest pages, the earliest of equals |
| Planning.PlanPipelineTasks | MinerU/mineru/cli/client.py:609-651 | the batches are a distribution of the documents in their order by which each one goes to the batch with room that holds the fewest pages, the earliest of equals, and opens the next batch if there is none or it exceeds the window; totals and indices are right, and the final renumbering changes nothing |
| Planning.PlanGoesRight | MinerU/mineru/cli/client.py:609-651 | for any list of documents the plan is such a distribution |
| Planning.OneDistribution | MinerU/mineru/cli/client.py:630-636 | only one distribution follows the rule |
| Planning.SortDocumentsSorted | MinerU/mineru/cli/client.py:614-617 | the order is by falling pages, then input order |
| Planning.PlanIsWell | MinerU/mineru/cli/client.py:609-651 | every document is in one batch, totals are page sums, indices count from 1, oversize documents come first and alone, other batches fit, and each batch's larger documents leave no room for the document that opened a later batch |
| Planning.NoTwoBatchesFit | MinerU/mineru/cli/client.py:629-648 | no two batches within the window could have been one |
| Planning.LargeLastIsOptimal | MinerU/mineru/cli/client.py:609-651 | if the last batch was opened by a document of over a third of the window, no feasible plan has fewer batches |
| Planning.WithinThreeHalves | MinerU/mineru/cli/client.py:609-651 | beside the oversize documents the plan has at most 3/2 times the batches of any feasible plan, so fewer than twice as many |
| TaskManager.StepKeepsSound | MinerU/mineru/cli/fast_api.py:926-1204 | each atomic step keeps: same keys in both dictionaries, an event set exactly for finished tasks unless all were woken, one owner for each unfinished task, distinct orders, at most the limit processing, normal returns only with finished tasks |
| TaskManager.RunIsSound | MinerU/mineru/cli/fast_api.py:926-1204 | every state reached from a start by any interleaving is of that kind |
| TaskManager.StepMoves | MinerU/mineru/cli/fast_api.py:1136-1204 | a status moves from pending to processing to an end state only, eviction takes finished tasks only |
| TaskManager.RunMoves | MinerU/mineru/cli/fast_api.py:979-1204 | over any run a status never goes back, a finished task never changes, and a task that left was finished at some point and never returns |
| TaskManager.EndedByRun | MinerU/mineru/cli/fast_api.py:1149-1182 | over any run a stored task is completed with a time exactly if its job returned at that time, and failed exactly if its job raised then |
| TaskManager.EndsOnce | MinerU/mineru/cli/fast_api.py:1096-1182 | no task ends twice in a run |
| TaskManager.CleanupLeaves | MinerU/mineru/cli/fast_api.py:1184-1219 | a cleanup takes out, with their events, the tasks that ended at least the retention ago, either way they ended, and no others; without a retention none |
| TaskManager.EvictedByRun | MinerU/mineru/cli/fast_api.py:1184-1219 | over any run a task leaves exactly by a cleanup at least the retention after its job returned or raised |
| TaskManager.AnswersAreOutcomes | MinerU/mineru/cli/fast_api.py:1016-1056 | over any run an answer that carries a task carries the outcome of the job of the task the waiter asked for |
| TaskManager.FirstInFirstOut | MinerU/mineru/cli/fast_api.py:979-1105 | tasks leave the queue in the order in which they were submitted, and a task's order number is its place in that order |
| TaskManager.QueuePositionNeverGrows | MinerU/mineru/cli/fast_api.py:989-1004 | the reported number of tasks ahead never increases over any run |
| TaskManager.ResumeFinds | MinerU/mineru/cli/fast_api.py:1045-1056 | a waiter that resumes before any wake-all finds its task finished, or evicted; it is never told the manager is unavailable |
| TaskManager.NoLostWakeup | MinerU/mineru/cli/fast_api.py:1027-1035 | no waiter stays asleep on a finished or evicted task |
| TaskManager.NoTaskIsStuck | MinerU/mineru/cli/fast_api.py:1096-1145 | before any wake-all an unfinished task can move, or the queue can, or another task holds a permit it can give back |
| TaskManager.WorkAdvances | MinerU/mineru/cli/fast_api.py:1096-1182 | a task's own steps bring it one stage nearer its end and no other step sets it back |
| TaskManager.WorkAddsUp | MinerU/mineru/cli/fast_api.py:1096-1182 | over any run without a crash or shutdown the work steps taken and those left add up: what was left at the start and four for every task submitted, so no run does more work than that |
| TaskManager.AtRestAllFinished | MinerU/mineru/cli/fast_api.py:1096-1182 | when no work step is enabled any more, and no wake-all came, every task is finished |
| TaskManager.AcquireKeepsLimit | MinerU/mineru/cli/fast_api.py:1142-1144 | taking a permit keeps the processing tasks within the limit |
| TaskManager.AsyncTaskManager.constructor | MinerU/mineru/cli/fast_api.py:927-940 | the initial fields |
| TaskManager.AsyncTaskManager.SubmitTask | MinerU/mineru/cli/fast_api.py:979-984 | registers the task, its event and its order, and queues it |
| TaskManager.AsyncTaskManager.DispatchNext | MinerU/mineru/cli/fast_api.py:1096-1105 | takes the queue's head and starts its processor |
| TaskManager.AsyncTaskManager.ProcessTask | MinerU/mineru/cli/fast_api.py:1136-1139 | looks the task up before waiting for a permit |
| TaskManager.AsyncTaskManager.RunTask | MinerU/mineru/cli/fast_api.py:1142-1159 | with a permit the task becomes processing |
| TaskManager.AsyncTaskManager.FinishTask | MinerU/mineru/cli/fast_api.py:1149-1182 | a job that returned leaves its task completed, one that raised leaves it failed, with the end time and the event set in the same step, and nothing else changed |
| TaskManager.AsyncTaskManager.WakeWaiters | MinerU/mineru/cli/fast_api.py:1086-1089 | sets the wake-up and every registered event |
| TaskManager.AsyncTaskManager.CleanupExpiredTasks | MinerU/mineru/cli/fast_api.py:1184-1219 | removes the expired tasks and their events, setting these, and counts them; which ones is `TaskManager.CleanupLeaves` |
| TaskManager.AsyncTaskManager.WaitForTerminalState | MinerU/mineru/cli/fast_api.py:1016-1035 | the answers given at once, or a sleeping waiter |
| TaskManager.AsyncTaskManager.ResumeWait | MinerU/mineru/cli/fast_api.py:1045-1056 | the answer after waking, by its five branches |
| TaskManager.AsyncTaskManager.DispatcherCrashes | MinerU/mineru/cli/fast_api.py:1108-1113 | a crash of the dispatcher stops it and wakes everyone |
| TaskManager.AsyncTaskManager.ShutdownBegins | MinerU/mineru/cli/fast_api.py:958-966 | the shutdown flag, the wake-up and the stopped dispatcher |
| TaskManager.AsyncTaskManager.ShutdownCancels | MinerU/mineru/cli/fast_api.py:972-977 | all processors are cancelled, leaving their tasks as they are |
| TaskManager.AsyncTaskManager.GetQueuedAhead | MinerU/mineru/cli/fast_api.py:989-1004 | counts the pending tasks with a smaller order |
| Limiter.StepKeepsSound | MinerU/mineru/cli/gradio_app.py:87-197 | each step keeps: free permits and holders add up to the limit, the active count is the number of requests inside and at most the limit, every token is on the list once and exactly while it should be |
| Limiter.RunIsSound | MinerU/mineru/cli/gradio_app.py:87-197 | every state any interleaving reaches is of that kind |
| Limiter.ClampNeverFires | MinerU/mineru/cli/gradio_app.py:192-197 | a release always finds its request counted, so the clamp at zero never acts |
| Limiter.NoPermitIsLost | MinerU/mineru/cli/gradio_app.py:107-127 | when all requests are over every permit is back, however they were interrupted |
| Limiter.TokenLeftBehind | MinerU/mineru/cli/gradio_app.py:107-127 | after any run a finished request's token is on the list if and only if the request waited and was interrupted again during its cleanup at some step of the run |
| Limiter.MarkedByRun | MinerU/mineru/cli/gradio_app.py:114-127 | a request is marked as interrupted again exactly when that step is in the run |
| Limiter.TokenCanBeLeft | MinerU/mineru/cli/gradio_app.py:114-127 | a run in which that happens |
| Limiter.PositionNeverGrows | MinerU/mineru/cli/gradio_app.py:87-105 | the number of tokens in front of a waiter never increases over any run, and a removed token never returns |
| Limiter.ListedOnEntry | MinerU/mineru/cli/gradio_app.py:143-147 | over any run an entering request is listed, behind all others, exactly if the limit was reached or the list was not empty |
| Limiter.WaitsByRun | MinerU/mineru/cli/gradio_app.py:143-146 | and it waits from then on exactly in that case |
| Limiter.ListedByEntry | MinerU/mineru/cli/gradio_app.py:87-147 | over any run whoever stands in front of a token entered before it |
| Limiter.LimiterState.constructor | MinerU/mineru/cli/gradio_app.py:65-85 | all permits free and no request |
| Limiter.LimiterState.BuildWaitSnapshot | MinerU/mineru/cli/gradio_app.py:87-101 | the token's index in the list, or nothing |
| Limiter.LimiterState.RemoveWaiter | MinerU/mineru/cli/gradio_app.py:103-105 | takes the token's first occurrence off, if there is one |
| Limiter.LimiterState.EnterRequest | MinerU/mineru/cli/gradio_app.py:140-149 | a token goes to the end of the list exactly when the active requests reach the limit or others are listed, with a snapshot then and none otherwise |
| Limiter.LimiterState.GrantPermit | MinerU/mineru/cli/gradio_app.py:149-149 | the semaphore hands a free permit to a waiting helper |
| Limiter.LimiterState.FinishHelper | MinerU/mineru/cli/gradio_app.py:162-164 | the helper ends with the permit it was handed |
| Limiter.LimiterState.CancelHelper | MinerU/mineru/cli/gradio_app.py:114-116 | a cancelled helper that was handed a permit gives it back |
| Limiter.LimiterState.InterruptCleanup | MinerU/mineru/cli/gradio_app.py:114-127 | interrupted again while awaiting its helper, a request leaves with its token still on the list |
| Limiter.LimiterState.ResumeRequest | MinerU/mineru/cli/gradio_app.py:188-191 | with the permit the token goes and the request counts as active |
| Limiter.LimiterState.InterruptRequest | MinerU/mineru/cli/gradio_app.py:107-127 | a finished helper's permit is released at once, an unfinished helper is cancelled and awaited |
| Limiter.LimiterState.EndCleanup | MinerU/mineru/cli/gradio_app.py:125-127 | the cleanup takes the token off |
| Limiter.LimiterState.ReleaseRequest | MinerU/mineru/cli/gradio_app.py:192-197 | counts down and frees the permit |
| Router.ScoreCompares | MinerU/mineru/cli/router.py:521-524 | comparing scores is comparing queued, processing and pending tasks together, times the other's capacity of at least one |
| Router.WorkerPool.AcquireSubmissionServer | MinerU/mineru/cli/router.py:763-785 | the selected server is healthy and not excluded; no other such server has less queued, processing and pending tasks for its capacity, nor as much and fewer pending, nor that too and is local while it is not; among equals it is the one the shuffle put first, and only its count goes up; none is selected only if there is no candidate |
| Router.WorkerPool.ReleaseSubmissionServer | MinerU/mineru/cli/router.py:787-793 | counts down, not below zero, and ignores unknown servers |
| Router.WorkerPool.MarkSubmissionFailure | MinerU/mineru/cli/router.py:795-802 | the server is no longer healthy; unknown servers are ignored |
| Router.SubmitRouterTask | MinerU/mineru/cli/router.py:1191-1229 | whatever others do to the servers at any of the awaits, before the choice, until the answer, and before the release, the loop ends, tries each server at most once, returns the first answer that is not an outage, and gives up only when no healthy server is untried; if others do nothing, all places are given back and only the servers that failed have lost their health |
| Router.StepKeepsSound | MinerU/mineru/cli/router.py:763-802 | under interleaved submissions, outages and refreshes each server's count equals the submissions holding a place on it |
| Router.RunIsSound | MinerU/mineru/cli/router.py:763-802 | and so in every state reached from an idle pool |
| Router.TriesBounded | MinerU/mineru/cli/router.py:1191-1229 | no submission is sent more often than there are servers |
| Router.ReleaseCountsDown | MinerU/mineru/cli/router.py:787-793 | a release finds its own submission counted, so the guard against negative counts never skips it |
| Router.OutageMarks | MinerU/mineru/cli/router.py:1223-1226 | a server met with an outage is no longer healthy and counts as attempted |
| Router.DownUntilRefreshed | MinerU/mineru/cli/router.py:795-802 | over any run it stays so until a health check finds it healthy |
| Router.FailedIsAvoided | MinerU/mineru/cli/router.py:763-802 | and no submission is sent to it before that |
| Router.RunIsFair | MinerU/mineru/cli/router.py:763-785 | after any run of choices a chosen server's queued, processing and pending tasks without its last submission are, for its capacity, no more than any healthy server's |
| Router.BalanceKept | MinerU/mineru/cli/router.py:763-785 | a pool balanced in this sense for all pairs stays balanced |
| Router.FairShare | MinerU/mineru/cli/router.py:521-524 | such a server carries at most one submission more than its capacity's share of the whole load |
| Router.NoSpreadIsMuchBetter | MinerU/mineru/cli/router.py:763-785 | however the same load is spread instead, some healthy server is as loaded for its capacity as a chosen one without its last submission |
| Executor.Execution.constructor | MinerU/mineru/cli/client.py:786-792 | the queue holds the tasks in order, then one stop marker for each worker |
| Executor.Execution.TakeItem | MinerU/mineru/cli/client.py:795-799 | a worker takes the head: a task to run, or a marker that ends it |
| Executor.Execution.EndTask | MinerU/mineru/cli/client.py:800-811 | a raised error is noted once, and the item is marked done either way |
| Executor.TakeKeepsSound | MinerU/mineru/cli/client.py:794-811 | items leave in order, each task is run or running once, each taken marker stopped one worker |
| Executor.FinishKeepsSound | MinerU/mineru/cli/client.py:794-811 | the same after a task ends, with the failures those that raised so far |
| Executor.StopAfterAllTasks | MinerU/mineru/cli/client.py:786-799 | a marker is at the head exactly when all tasks were taken, and no task is taken twice |
| Executor.SomeWorkerCanMove | MinerU/mineru/cli/client.py:794-814 | with at least one worker, some worker can move while anything is unfinished |
| Executor.DoneMeansAllRun | MinerU/mineru/cli/client.py:813-816 | once nothing is unfinished every task was run once, every worker took one marker and stopped, and the failures are the tasks that raised |
| Executor.ExecutePlannedTasks | MinerU/mineru/cli/client.py:781-816 | for any order in which workers move, the run ends and reports each task that raised exactly once, and nothing else |
| Executor.ResolveSubmitConcurrency | MinerU/mineru/cli/client.py:765-768 | an error exactly for a bound that is not positive, else between one and the bound, and no more than the tasks |
| Utf8.DecodeEncode | MinerU/mineru/cli/common.py:89-90 | decoding an encoded string gives it back (UTF-8, section 3 of RFC 3629) |
| Utf8.EncodedBytes | MinerU/mineru/cli/common.py:89-90 | a character takes one to four bytes by its range, the first telling how many, the others marked as continuations, and their payloads make up its code point (section 3 of RFC 3629) |
| Utf8.EncodeDecode | MinerU/mineru/cli/common.py:101-104 | the strict decoder accepts nothing but encodings |
| Utf8.DecodeCut | MinerU/mineru/cli/common.py:97-107 | an encoding cut at any byte decodes to the whole characters before the cut or is reported ill-formed where the cut character starts |
| Utf8.WholeCharsLongest | MinerU/mineru/cli/common.py:93-107 | a prefix fits the bytes exactly when it is no longer than the one chosen |
| Utf8.TruncateToUtf8Bytes | MinerU/mineru/cli/common.py:93-107 | the shrinking loop ends with the longest prefix of whole characters that fits |
| Stems.CandidateFits | MinerU/mineru/cli/common.py:121-131 | a candidate fits, and keeps the whole suffix after as much of the stem as fits |
| Stems.NumberedDistinct | MinerU/mineru/cli/common.py:155-161 | different numbers give candidates that differ even with case folded |
| Stems.DecimalIsValue | MinerU/mineru/cli/common.py:156-156 | the digits of the suffix are the number, in base ten, without a leading zero |
| Stems.FindFree | MinerU/mineru/cli/common.py:154-161 | the unbounded search ends, with the least number whose candidate is not taken |
| Stems.UniquifyTaskStems | MinerU/mineru/cli/common.py:134-168 | the loop gives each document its stem by the rule `Given`, in input order, and lists exactly the changed ones |
| Stems.NumberedFromCount | MinerU/mineru/cli/common.py:148-161 | a stem whose key is new is kept; one whose key came k times before, k at least one, gets the first number from k + 1 on that is not taken |
| Stems.CopiesAreCounted | MinerU/mineru/cli/common.py:134-168 | copies of one short stem come out as the stem, then with _2, _3 and so on |
| Stems.RenamedMeans | MinerU/mineru/cli/common.py:165-166 | exactly the documents whose stem changed are listed, each with its stem before and after |
| Stems.NewKeyIsFree | MinerU/mineru/cli/common.py:148-152 | a key not seen before is never among the assigned ones, so an earlier generated name never displaces a first occurrence |
| Stems.StemsAreDistinct | MinerU/mineru/cli/common.py:134-168 | no two stems are equal with case folded |
| Stems.StemsFit | MinerU/mineru/cli/common.py:134-168 | every stem has at most 200 bytes, and the first of each key keeps its normalized form |
| Stems.ShortFirstStays | MinerU/mineru/cli/common.py:117-118 | a stem of at most 200 bytes is left alone where its key comes first |
| Stems.OnlyOneAnswer | MinerU/mineru/cli/common.py:134-168 | the rule leaves no choice |
| Stems.DistinctStemsStay | MinerU/mineru/cli/common.py:148-152 | stems that fit and differ are left alone |
| Stems.RenamingIsIdempotent | MinerU/mineru/cli/common.py:134-168 | renaming the result again changes nothing |
| Boxes.PositiveRatio | MinerU/mineru/utils/boxbase.py:175-192 | the ratio is between 0 and 1, and positive exactly when the overlap has an area |
| Boxes.RatiosAreShares | MinerU/mineru/utils/boxbase.py:118-192 | for boxes with an area: the shared area over the first box's, and over the smaller one's, which is also the larger of the two ratios |
| Spans.BuildGrid | MinerU/mineru/utils/span_pre_proc.py:255-265 | each row lists, in order, exactly the boxes whose heights reach it |
| Spans.SharedCell | MinerU/mineru/utils/span_pre_proc.py:267-272 | boxes that share a height share a row, whatever the row height |
| Spans.SpanBlockMatcher.constructor | MinerU/mineru/utils/span_pre_proc.py:237-241 | nothing used, and the grid built |
| Spans.SpanBlockMatcher.CandidateIndicesForBlock | MinerU/mineru/utils/span_pre_proc.py:274-280 | the indices that share a row with the block, in order and once each |
| Spans.SpanBlockMatcher.CollectForBlock | MinerU/mineru/utils/span_pre_proc.py:282-295 | the unused candidates over the threshold, in order, are collected and marked; with a ratio that needs a shared height these are what a search of all spans finds |
| Spans.SpanBlockMatcher.RemainingSpans | MinerU/mineru/utils/span_pre_proc.py:297-303 | the unused ones, in order |
| Spans.GettersNeedHeight | MinerU/mineru/backend/utils/formula_number.py:16-21 | both ratios in use need a shared height once the threshold is not negative |
| Spans.ClaimsMeans | MinerU/mineru/utils/span_pre_proc.py:282-308 | a text block claims a span with an area exactly if more than half of the span lies in it, a formula number's block if more than half of the smaller of the two does |
| Spans.IndexNeedsThreshold | MinerU/mineru/utils/span_pre_proc.py:282-308 | with the default ratio the index finds every span for all boxes if and only if the threshold is not negative |
| Spans.OwnerIsFirst | MinerU/mineru/utils/span_pre_proc.py:282-308 | a span's owner claims it and no earlier block does; without an owner none does |
| Spans.CollectForBlocks | MinerU/mineru/backend/pipeline/pipeline_magic_model.py:224-293 | taking blocks one after another gives every span to the first block that claims it, and the rest remain |
| CharFill.AcceptedIsReached | MinerU/mineru/utils/span_pre_proc.py:453-486 | whoever accepts a character passes the width test tried first and covers the row of its middle |
| CharFill.AcceptsMeans | MinerU/mineru/utils/span_pre_proc.py:453-486 | a character is accepted exactly if its middle is in the span's height and within 0.33 heights of its middle line, and its middle is in the span's width, or it is a closing mark that starts less than a height before the span's end, or an opening mark, and no closing one, that ends less than a height after its start |
| CharFill.MarksPair | MinerU/mineru/utils/span_pre_proc.py:367-373 | brackets open with an opening and close with a closing mark but for the corner brackets, which have no closing mark; only the straight quote is both |
| CharFill.SortedByTop | MinerU/mineru/utils/span_pre_proc.py:311-313 | spans are taken from the top down, and in the order they came where the tops are level |
| CharFill.FindSpan | MinerU/mineru/utils/span_pre_proc.py:329-345 | the search of one row finds the first span in the list that accepts |
| CharFill.FillCharInSpans | MinerU/mineru/utils/span_pre_proc.py:311-345 | every span gets exactly the characters whose first accepting span it is, in order, whatever the row height |
| CharFill.OneOwner | MinerU/mineru/utils/span_pre_proc.py:328-345 | a character is in its owner's list as often as it came, and in no other |
| CharFill.OwnerIsHighest | MinerU/mineru/utils/span_pre_proc.py:311-313 | no span that accepts a character lies above its owner |
| Dedup.NearAreNeighbors | MinerU/mineru/utils/pdf_text_tool.py:150-167 | boxes within the tolerance are at most one bucket apart |
| Dedup.SearchNeighbors | MinerU/mineru/utils/pdf_text_tool.py:382-389 | the nine buckets are searched for a near box |
| Dedup.DeduplicateNearIdenticalChars | MinerU/mineru/utils/pdf_text_tool.py:357-393 | the bucketed loop keeps exactly what comparing with every character kept before would keep |
| Dedup.DropsMeans | MinerU/mineru/utils/pdf_text_tool.py:107-149 | a visible character is dropped exactly if a visible one kept before has its text and style and corners at most 1 away, or if the last one kept has its text and style and lies more than 1 and at most 2.5 away both ways, shifted evenly to within 0.1, and shares 45 percent of the smaller one |
| Dedup.OverlapIsShare | MinerU/mineru/utils/pdf_text_tool.py:81-104 | that share is the shared area over the smaller area |
| Dedup.KeptGrows | MinerU/mineru/utils/pdf_text_tool.py:357-393 | a character is added to those kept before it exactly if none of these makes it a repetition, and what is kept never changes afterwards |
| Dedup.NoTwoNear | MinerU/mineru/utils/pdf_text_tool.py:357-393 | no two kept visible characters of one signature are near-identical, nor is one the shadow of the one just before it |
| Dedup.KeptIsSubsequence | MinerU/mineru/utils/pdf_text_tool.py:357-393 | the result is the input without some visible characters; all others stay, in order |
| Dedup.KeptTwice | MinerU/mineru/utils/pdf_text_tool.py:357-393 | running it again changes nothing |
| TieUp.CalcEffectiveIndexDiff | MinerU/mineru/utils/magic_model_utils.py:79-99 | the loop's difference is one more than the indices strictly between that no object has, zero for equal indices |
| TieUp.DifferenceCounts | MinerU/mineru/utils/magic_model_utils.py:79-99 | the difference by counting: zero for the same index, else one more than the number of indices strictly between that no object has; the same both ways |
| TieUp.GrowsAway | MinerU/mineru/utils/magic_model_utils.py:79-99 | going away on one side it grows strictly at every index that is no object's |
| TieUp.FindBest | MinerU/mineru/utils/magic_model_utils.py:107-121 | all subjects at the least difference, in order |
| TieUp.NearestCounts | MinerU/mineru/utils/magic_model_utils.py:107-118 | a subject is among the best exactly if no subject has a smaller difference |
| TieUp.AtMostTwoNearest | MinerU/mineru/utils/magic_model_utils.py:120-153 | with subject indices distinct and apart from the objects' at most two subjects tie, one on each side |
| TieUp.SeparationIsNeeded | MinerU/mineru/utils/magic_model_utils.py:152-153 | three subjects tie when indices repeat, or when one is an object's |
| TieUp.TieUpCategoryByIndex | MinerU/mineru/utils/magic_model_utils.py:101-163 | each subject's list holds exactly its objects in order; the error is raised if and only if there are subjects and some object has more than two nearest ones, which is out of reach for separate indices |
| TieUp.OwnerIsNearest | MinerU/mineru/utils/magic_model_utils.py:101-156 | every object then has a subject, and no other is nearer |
| TieUp.ChosenAlone | MinerU/mineru/utils/magic_model_utils.py:120-121 | a single nearest subject gets the object |
| TieUp.ChosenOfTwo | MinerU/mineru/utils/magic_model_utils.py:122-151 | of two the first without boxes; the nearer by edges if these differ by more than 2; else a table caption the later one, a footnote the earlier one, anything else the nearer by centres, the first if they are as far |
| TieUp.RuleByType | MinerU/mineru/utils/magic_model_utils.py:138-147 | of two about as far, a table caption goes to the subject after it and a footnote to the one before it |
| TieUp.ListedOnce | MinerU/mineru/utils/magic_model_utils.py:155-156 | an object is in its subject's list once and in no other |
| Intervals.MergeIntervals | MinerU/mineru/utils/ocr_utils.py:165-179 | the loop over the sorted intervals computes `Merged` |
| Intervals.MergedIs | MinerU/mineru/utils/ocr_utils.py:165-179 | merging keeps the covered numbers and leaves separated intervals |
| Intervals.RemoveIntervals | MinerU/mineru/utils/ocr_utils.py:182-210 | the loop computes `Removed`, for any masks |
| Intervals.RemovedIs | MinerU/mineru/utils/ocr_utils.py:182-210 | for well-formed masks the pieces are non-empty, sorted, not even touching, and hold exactly the original's numbers that no mask covers |
| Intervals.OnlyOneList | MinerU/mineru/utils/ocr_utils.py:182-210 | only one such list exists, so this fixes the result |
| Intervals.SwappedMaskOverlaps | MinerU/mineru/utils/ocr_utils.py:182-210 | a mask with swapped ends leaves overlapping pieces |

## Left out

- HTML: parsing and writing tables, nested tables, attributes other than the spans, negative spans; rows and cells are values, so sharing of document nodes between lists is not captured.
- The table heuristics: header detection, captions, footnotes, box widths and the front header cache, which is not refreshed after an append.
- TableMerge.DroppedRowKeepsLayout: covers rows with colspans of at least one, and in the next row rowspans of at least one.
- TableCarryLayout.SinkingKeepsLaterRows: the two rows' colspans are at least one; with a rowspan open above the deleted row the slots are never kept, as `TableCarryExact.SinkingIsExact` shows.
- TableLayout.BuildRowRenderedCellSegments: a segment's display text is represented by the source of its columns.
- TableClipLayout.ClipIsExact: speaks of placeholders covered whole; when part of one is moved further down, the code inserts it by columns that leave the open rowspans out, and which slots it then takes is not stated.
- TablePages.MergeTable: every table's state is built before the run instead of on first use, which makes no difference as states are cached by block.
- TaskManager.AsyncTaskManager.FinishTask: the parse job is only a success or a failure; errors raised at the semaphore itself cannot occur in the model.
- TaskManager.AsyncTaskManager.ShutdownCancels: a job is taken to let its cancellation through, and the cleanup loop's own crash, which only sets the health report, is not modelled; ids are taken to be never reused.
- Limiter.LimiterState.EnterRequest: callbacks that raise are not modelled, nor the request without a limit, which waits for nothing; each limit's state is modelled by itself.
- Router.SubmitRouterTask: cancellation of the request, and a reply that misses fields, are not modelled; health checks are any change of the servers between steps.
- Executor.ExecutePlannedTasks: cancellation of a worker from outside is not modelled.
- Planning.PlanPipelineTasks: tasks are values in a list instead of shared objects.
- Stems.UniquifyTaskStems: at most 2^63 - 1 stems, the most a list can hold, so that a number suffix never fills the 200 bytes by itself; strings without lone surrogates, which cannot be encoded.
- Spans.SpanBlockMatcher.constructor: the row height is any number from 1 on instead of the median span height, on which nothing depends.
- CharFill.FillCharInSpans: what happens to the spans afterwards (contents, private-use characters, deferred OCR).
- Dedup.DeduplicateNearIdenticalChars: a font and rotation are one number that is equal when they are.
- Intervals.RemovedIs: masks whose ends are in order; merging edits copies, not the caller's intervals.
- Registries of the router, health payloads, HTTP, uploads, archives, subprocesses, PDF and image libraries, recognition models, the user interfaces and deployment: input, output and foreign calls.
- Page ranges, sample pages, flag stripping and width conversion.
