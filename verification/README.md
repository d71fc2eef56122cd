# GridTracker rule core in Dafny

GridTracker shows a 3-row by 9-column grid of cells. A click toggles a cell
between occupied and unoccupied. From the occupancy the page derives two
flags per cell:

- **in link**: the cell belongs to a *link*, a window of three consecutive
  occupied cells in one row. Links are chosen greedily from left to right.
  A full window is accepted unless it shares a column with a link already
  accepted.
- **priority**: some window has exactly two cells that are occupied and not
  linked, and this cell is that window's first unoccupied cell.

The model covers that logic from `src/App.tsx`:

- `wrappers.dfy` (`Wrappers`): `Option` and `Result`.
- `links.dfy` (`Links`): the candidate windows (`linkCandidates`) and the
  `reduce` of `linkNodes`. It also holds the never-called `findLinks` loop,
  as a method proved equal to the columns of `linkNodes`. A reference
  definition, `GreedyBelow`, works on start columns. It accepts a full
  window when the window starts past the end of the last accepted one. The
  fold is proved equal to it, and the properties of links are proved about
  it.
- `priority.dfy` (`Priority`): `priorityNodesNew` for one row. The lookup
  `candidate.find(n => !n.occupied).node` fails when every cell of a
  nominating window is occupied. The model returns `Failure(window)` for the
  first such window rather than a column. This case is reachable: in the
  row `T,T,T,T,T,F,F,F,F`, window 2 has cell 2 linked and cells 3 and 4
  occupied and unlinked. Nominations are not deduplicated: one column can
  appear once per window that nominates it.
- `board.dfy` (`Board`): the grid object, a class over an `array2<bool>`.
  Its constructor gives the all-unoccupied `initialGrid`, and `Toggle` flips
  one cell in place. This module also holds the derivations over all rows
  and the two per-cell flags.
- `kinds.dfy` (`Kinds`): the `Switch`/`Match` that picks each cell's kind
  (cube, cone, hybrid).
- `scenarios.dfy` (`Scenarios`): worked rows with their exact link groups
  and priority lists.

Derived values are plain functions of a snapshot of the grid. After a
toggle they are recomputed from the new snapshot. Rows in `Links` and
`Priority` are sequences of any length, as in the source's `row.length`
loops. The grid's rows have nine cells.

## Model

| member | source | states |
|---|---|---|
| `Links.Candidates` | src/App.tsx:96-112 | a row has one window per start column 0 … len-3; window i holds columns i, i+1, i+2 with their occupancy |
| `Links.WindowsBelow` | src/App.tsx:100-107 | the windows are pushed in order of their start column |
| `Links.AllOccupied` | src/App.tsx:119 | the test `c.every(n => n.occupied)`; on window i it is `Full` (see `Links.AllOccupiedWindow`) |
| `Links.SharesNode` | src/App.tsx:121 | the test `l.some(n => c.some(m => m.node === n.node))`: two groups have a column in common |
| `Links.OverlapsFound` | src/App.tsx:120-122 | some accepted group shares a column with c; decided by `Links.OverlapIffNearLast` |
| `Links.Accept` | src/App.tsx:118-126 | one reduce step: push c iff it is full and overlaps no accepted group; restated on start columns by `Links.AcceptWindow` |
| `Links.Accepted` | src/App.tsx:117-127 | the reduce from `[]`; its invariant is `Links.AcceptedSound`, its reference `Links.AcceptedIsGreedy` |
| `Links.AcceptedSound` | src/App.tsx:117-127 | for any candidates the reduce keeps at most all of them, only full ones taken from the input, and no two kept groups share a column |
| `Links.LinkNodes` | src/App.tsx:114-130 | `linkNodes` of one row; described by `Links.LinkNodesAreWindows` and `Links.LinkNodesShape` |
| `Links.GreedyBelow` | src/App.tsx:117-127 | reference starts accepted among the first k windows: each is below k |
| `Links.GreedyShape` | src/App.tsx:117-127 | the reference starts increase at least three apart and each starts a full window |
| `Links.AllOccupiedWindow` | src/App.tsx:119 | `c.every(n => n.occupied)` holds for window i iff the row is full at i, i+1, i+2 |
| `Links.OverlapIffNearLast` | src/App.tsx:120-122 | for spaced starts below i, window i overlaps an accepted window iff it starts before the last accepted one ends |
| `Links.AcceptWindow` | src/App.tsx:118-125 | one step of the reduce accepts window i iff it is full and starts past the last accepted group |
| `Links.GreedyStep` | src/App.tsx:117-127 | one step of the reduce after the reference windows below k-1 gives the reference windows below k |
| `Links.AcceptedIsGreedy` | src/App.tsx:114-130 | the left-to-right reduce over the first k windows equals the windows at the reference starts |
| `Links.LinkNodesAreWindows` | src/App.tsx:114-130 | `linkNodes` of a row is the list of windows at `LinkStarts` |
| `Links.LinkNodesShape` | src/App.tsx:117-127 | every link group is a full window, the groups come in increasing start order, and no two share a column |
| `Links.GreedyChoice` | src/App.tsx:117-127 | window i is accepted iff it is full and no accepted group starting before it reaches column i |
| `Links.FullWindowCovered` | src/App.tsx:117-127 | every full window lies under a link group that starts at or before it |
| `Links.AllOccupiedRow` | src/App.tsx:114-130 | an all-occupied row of nine gets link groups starting at 0, 3 and 6 |
| `Links.Nodes` | src/App.tsx:136 | `c.map(n => n.node)`; for a window it is its three columns (see `Links.IndicesOfWindows`) |
| `Links.LinkIndices` | src/App.tsx:135-137 | the `map`/`flat` of `linkIndices`; described by `Links.LinkIndicesAreColumns` |
| `Links.IndicesOfWindows` | src/App.tsx:135-137 | flattening the columns of the windows at some starts lists each start's three columns, in order |
| `Links.LinkIndicesAreColumns` | src/App.tsx:135-137 | `linkIndices` lists the three columns of each accepted start, in order |
| `Links.LinkedOccupied` | src/App.tsx:135-137 | every linked column is an occupied cell of the row |
| `Links.Every` | src/App.tsx:40 | the test `group.every((n) => n)` |
| `Links.EverySlice` | src/App.tsx:39-40 | the slice `row.slice(index, index + 3)` is all occupied iff the row is full at index |
| `Links.ColumnsSkip` | src/App.tsx:36-38 | for spaced earlier starts, index i is already listed iff the last group reaches column i |
| `Links.FindLinksStep` | src/App.tsx:35-43 | one iteration of the loop skips a listed start, appends a full window's three columns, and otherwise changes nothing |
| `Links.FindLinks` | src/App.tsx:33-45 | the loop returns exactly `linkIndices` of `linkNodes` for the row |
| `Priority.Live` | src/App.tsx:141 | the filter of occupied, unlinked members; described by `Priority.LiveMembers` and `Priority.LiveWindow` |
| `Priority.LiveMembers` | src/App.tsx:141 | the filter keeps a member iff it is occupied and its column is not linked, and never grows the list |
| `Priority.FirstUnoccupied` | src/App.tsx:145 | None iff every member is occupied; otherwise the column of the first unoccupied member |
| `Priority.LiveWindow` | src/App.tsx:141-142 | a window's live count is the number of its occupied, unlinked cells |
| `Priority.FirstUnoccupiedWindow` | src/App.tsx:145 | a window's lookup yields its first unoccupied column, or None when all three are occupied |
| `Priority.Nominations` | src/App.tsx:139-147 | the walk over one row's windows; described by `Priority.NominationsFailure`, `Priority.NominationsMembers` and `Priority.NominationsCount` |
| `Priority.NominatingWindows` | src/App.tsx:139-146 | the number of windows that nominate a column, the reference for `Priority.NominationsCount` |
| `Priority.NominationsFailure` | src/App.tsx:139-147 | the walk fails iff some window has two live cells and no unoccupied one, and it reports the first such window |
| `Priority.NominationsMembers` | src/App.tsx:139-147 | on success a column is listed iff some window nominates it |
| `Priority.NominationsCount` | src/App.tsx:139-147 | on success, a column occurs in the list exactly as many times as there are windows nominating it: nothing is deduplicated |
| `Priority.NominationsNone` | src/App.tsx:139-147 | with no window of exactly two live cells, the list is empty |
| `Priority.PriorityNodes` | src/App.tsx:132-150 | `priorityNodesNew` for one row; described by `Priority.PriorityMembers`, `Priority.PriorityCount`, `Priority.PriorityUnoccupied` and `Priority.PriorityFailure` |
| `Priority.PriorityMembers` | src/App.tsx:135-146 | column c is a priority iff some window has exactly two occupied unlinked cells and c is its first unoccupied column |
| `Priority.PriorityCount` | src/App.tsx:139-146 | on success, column c occurs in the row's priorities once per window of the row that nominates it |
| `Priority.PriorityUnoccupied` | src/App.tsx:139-146 | every priority column is an unoccupied cell, so it is never a linked column |
| `Priority.PriorityFailure` | src/App.tsx:141-145 | the row fails iff some window is full yet has two unlinked cells; the failure names the first such window |
| `Priority.FailingWindowHasOneLinkedCell` | src/App.tsx:141-145 | a failing window has exactly one linked cell |
| `Board.InitialGrid` | src/App.tsx:27-31 | three rows of nine cells, all unoccupied |
| `Board.Flip` | src/App.tsx:70-74 | a click on (r, c) negates that cell and leaves every other cell unchanged |
| `Board.FlipTwice` | src/App.tsx:70-74 | two clicks on one cell restore the grid, its link groups and its priorities |
| `Board.AllLinkNodes` | src/App.tsx:114-130 | `linkNodes` of every row, in row order |
| `Board.RowPriorities` | src/App.tsx:134-148 | one per-row result for each row of the grid, entry r being row r's |
| `Board.AllPriorities` | src/App.tsx:132-150 | `priorityNodesNew` for the grid; described by `Board.PrioritiesSucceed`, `Board.PrioritiesPerRow` and `Board.PrioritiesFailure` |
| `Board.Collect` | src/App.tsx:133-149 | on success there is one priority list per remaining row |
| `Board.CollectSucceeds` | src/App.tsx:133-149 | collecting succeeds iff every remaining row's result does |
| `Board.CollectValues` | src/App.tsx:133-149 | on success, entry r - from is row r's list |
| `Board.CollectFailure` | src/App.tsx:133-149 | on failure, the error names the first failing row and its window |
| `Board.PrioritiesSucceed` | src/App.tsx:133-149 | the grid's analysis succeeds iff every row's does |
| `Board.PrioritiesPerRow` | src/App.tsx:133-149 | on success, entry r is row r's priority list |
| `Board.PrioritiesFailure` | src/App.tsx:133-149 | on failure, the error names the first failing row and that row's failing window |
| `Board.InLink` | src/App.tsx:168-170 | the `inLink` flag; see `Board.InLinkOccupied` and `Board.FlagsExclusive` |
| `Board.IsPriority` | src/App.tsx:165-167 | the `priority` flag, failing with the grid's analysis; see `Board.FlagsExclusive` |
| `Board.InLinkOccupied` | src/App.tsx:168-170 | a cell flagged in-link is occupied |
| `Board.FlagsExclusive` | src/App.tsx:165-170 | no cell is both in a link and a priority |
| `Board.Grid.Snapshot` | src/App.tsx:60-62 | the snapshot has three rows of nine cells, each equal to the array cell |
| `Board.Grid.constructor` | src/App.tsx:27-31 | a new grid's snapshot is `initialGrid` |
| `Board.Grid.Toggle` | src/App.tsx:70-74 | the new snapshot is the old one with exactly cell (row, col) flipped |
| `Kinds.IsCubeCell` | src/App.tsx:162 | the cube case's condition; characterised by `Kinds.Kind` |
| `Kinds.IsConeCell` | src/App.tsx:173-176 | the cone case's condition; characterised by `Kinds.Kind` |
| `Kinds.IsHybridCell` | src/App.tsx:188 | the hybrid case's condition; characterised by `Kinds.Kind` |
| `Kinds.Kind` | src/App.tsx:159-198 | every address of the 3 x 9 grid has a kind; cube iff upper row and col mod 3 = 1, cone iff upper row and col mod 3 ≠ 1, hybrid iff row 2 |
| `Kinds.KindCasesExclusive` | src/App.tsx:162-188 | no address matches two cases |
| `Scenarios.NoLinksWithGap` | src/App.tsx:114-130 | a row occupied at 0, 1 and 3 has no link |
| `Scenarios.GapTail` | src/App.tsx:139-146 | in a row occupied at 0, 1 and 3, windows 2 to 6 nominate nothing |
| `Scenarios.DuplicateNomination` | src/App.tsx:139-146 | a row occupied at 0, 1 and 3 has priorities `[2, 2]` |
| `Scenarios.FirstStartOnly` | src/App.tsx:114-130 | a row full at 0-2 and empty at 5-8 has the single reference start 0 |
| `Scenarios.FirstWindowOnly` | src/App.tsx:114-137 | a row full at 0-2 and empty at 5-8 has the single link 0-2 |
| `Scenarios.LinkedPrefix` | src/App.tsx:132-150 | a row occupied at 0-2 only has one link and no priority |
| `Scenarios.EmptyRow` | src/App.tsx:114-150 | an empty row has no link and no priority |
| `Scenarios.UndefinedLookup` | src/App.tsx:141-145 | the row `T,T,T,T,T,F,F,F,F` fails at window 2 |

## Left out

- Rendering is not modelled: the JSX, the `clsx` class strings, the colour table `typeStyles` and the `Link` icon component. They only affect presentation. `./Link` is not part of this model.
- Solid.js reactivity is not modelled (`createSignal`, `createMemo`, `Index`). Derived values are functions of the current snapshot, recomputed in full after each toggle.
- The source keys rows in a `Map` and a `Record`. The model uses a sequence indexed by row.
- The `console.log` calls are left out because they are output only.
- Out-of-range addresses are excluded by preconditions. The source never checks bounds, because addresses only come from the render loop.
- `Board.Grid.Toggle`: the source writes the cell in place and then hands the signal a shallow copy of the outer array, `[...prev]`. The copy only serves to trigger re-rendering and is not modelled.
- The priority lists are not deduplicated, and a failed lookup is a failure of the whole grid's analysis. Both follow what the source does. The model does not substitute a deduplicated set or a silent "no candidate".
