/**
 * The 3 x 9 occupancy grid and what the page derives from it
 * (src/App.tsx): the grid object toggled by a click, the per-row link
 * groups and priorities recomputed from its current contents, and the two
 * flags each cell is drawn with.
 */
module Board {
  import opened Wrappers
  import opened Links
  import opened Priority

  const Rows: nat := 3
  const Cols: nat := 9

  /** A snapshot of the grid: three rows of nine cells. */
  predicate IsGrid(g: seq<seq<bool>>)
  {
    |g| == Rows && forall r :: 0 <= r < |g| ==> |g[r]| == Cols
  }

  /** `initialGrid`: every cell unoccupied. */
  function InitialGrid(): (g: seq<seq<bool>>)
    ensures IsGrid(g)
    ensures forall r, c :: 0 <= r < Rows && 0 <= c < Cols ==> !g[r][c]
  {
    var row := seq(Cols, _ => false);
    [row, row, row]
  }

  /** The snapshot after a click on (r, c): exactly that cell changes, to its negation. */
  function Flip(g: seq<seq<bool>>, r: nat, c: nat): (h: seq<seq<bool>>)
    requires IsGrid(g) && r < Rows && c < Cols
    ensures IsGrid(h)
    ensures h[r][c] == !g[r][c]
    ensures forall r', c' :: 0 <= r' < Rows && 0 <= c' < Cols && (r' != r || c' != c) ==> h[r'][c'] == g[r'][c']
  {
    g[r := g[r][c := !g[r][c]]]
  }

  /** Two clicks on the same cell restore the grid, and with it everything derived from it. */
  lemma FlipTwice(g: seq<seq<bool>>, r: nat, c: nat)
    requires IsGrid(g) && r < Rows && c < Cols
    ensures Flip(Flip(g, r, c), r, c) == g
    ensures AllLinkNodes(Flip(Flip(g, r, c), r, c)) == AllLinkNodes(g)
    ensures AllPriorities(Flip(Flip(g, r, c), r, c)) == AllPriorities(g)
  {
    var h := Flip(Flip(g, r, c), r, c);
    assert h[r] == g[r];
  }

  // ---------------------------------------------------------------------
  // Derivations over the whole grid

  /** `linkNodes`: the link groups of every row. */
  function AllLinkNodes(g: seq<seq<bool>>): seq<seq<LinkCandidate>>
  {
    seq(|g|, r requires 0 <= r < |g| => LinkNodes(g[r]))
  }

  /** Where `.node` was read from `undefined`: the row and the window. */
  datatype PriorityError = UndefinedNode(row: nat, window: LinkCandidate)

  /** Each row's `priorityNodesNew` result, in row order. */
  function RowPriorities(g: seq<seq<bool>>): (rs: seq<Result<seq<nat>, LinkCandidate>>)
    ensures |rs| == |g|
    ensures forall r :: 0 <= r < |g| ==> rs[r] == PriorityNodes(g[r])
  {
    seq(|g|, r requires 0 <= r < |g| => PriorityNodes(g[r]))
  }

  /**
   * The rows of `priorityNodesNew` from row `from` on, given each row's
   * result: the rows in order, the first failing row aborting the whole
   * computation.
   */
  function Collect(rs: seq<Result<seq<nat>, LinkCandidate>>, from: nat): (res: Result<seq<seq<nat>>, PriorityError>)
    requires from <= |rs|
    ensures res.Success? ==> |res.value| == |rs| - from
    decreases |rs| - from
  {
    if from == |rs| then Success([])
    else match rs[from]
      case Failure(w) => Failure(UndefinedNode(from, w))
      case Success(ps) =>
        var rest := Collect(rs, from + 1);
        if rest.Failure? then rest else Success([ps] + rest.value)
  }

  /** `priorityNodesNew`: the priority columns of every row. */
  function AllPriorities(g: seq<seq<bool>>): Result<seq<seq<nat>>, PriorityError>
  {
    Collect(RowPriorities(g), 0)
  }

  /** Collecting succeeds iff every remaining row succeeds. */
  lemma {:induction false} CollectSucceeds(rs: seq<Result<seq<nat>, LinkCandidate>>, from: nat)
    requires from <= |rs|
    ensures Collect(rs, from).Success? <==> forall r :: from <= r < |rs| ==> rs[r].Success?
    decreases |rs| - from
  {
    if from < |rs| {
      CollectSucceeds(rs, from + 1);
    }
  }

  /** On success, collecting lists each remaining row's value in order. */
  lemma {:induction false} CollectValues(rs: seq<Result<seq<nat>, LinkCandidate>>, from: nat)
    requires from <= |rs| && Collect(rs, from).Success?
    ensures forall r :: from <= r < |rs| ==>
              rs[r].Success? && Collect(rs, from).value[r - from] == rs[r].value
    decreases |rs| - from
  {
    if from < |rs| {
      CollectValues(rs, from + 1);
    }
  }

  /** On failure, collecting names the first failing row and its window. */
  lemma {:induction false} CollectFailure(rs: seq<Result<seq<nat>, LinkCandidate>>, from: nat)
    requires from <= |rs| && Collect(rs, from).Failure?
    ensures var e := Collect(rs, from).error;
            from <= e.row < |rs| && rs[e.row] == Failure(e.window)
            && forall r :: from <= r < e.row ==> rs[r].Success?
    decreases |rs| - from
  {
    if rs[from].Success? {
      CollectFailure(rs, from + 1);
    }
  }

  /** The grid's analysis succeeds iff every row's does. */
  lemma PrioritiesSucceed(g: seq<seq<bool>>)
    ensures AllPriorities(g).Success? <==> forall r :: 0 <= r < |g| ==> PriorityNodes(g[r]).Success?
  {
    CollectSucceeds(RowPriorities(g), 0);
  }

  /** On success, the grid's analysis lists each row's priorities. */
  lemma PrioritiesPerRow(g: seq<seq<bool>>)
    requires AllPriorities(g).Success?
    ensures |AllPriorities(g).value| == |g|
    ensures forall r :: 0 <= r < |g| ==>
              PriorityNodes(g[r]).Success? && AllPriorities(g).value[r] == PriorityNodes(g[r]).value
  {
    var rs := RowPriorities(g);
    CollectValues(rs, 0);
    forall r | 0 <= r < |g|
      ensures PriorityNodes(g[r]).Success? && AllPriorities(g).value[r] == PriorityNodes(g[r]).value
    {
      assert rs[r] == PriorityNodes(g[r]);
    }
  }

  /** On failure, the grid's analysis names the first failing row and its window. */
  lemma PrioritiesFailure(g: seq<seq<bool>>)
    requires AllPriorities(g).Failure?
    ensures var e := AllPriorities(g).error;
            e.row < |g| && PriorityNodes(g[e.row]) == Failure(e.window)
            && forall r :: 0 <= r < e.row ==> PriorityNodes(g[r]).Success?
  {
    CollectFailure(RowPriorities(g), 0);
  }

  /** Two snapshots that agree on every cell are equal. */
  lemma SameGrid(g: seq<seq<bool>>, h: seq<seq<bool>>)
    requires IsGrid(g) && IsGrid(h)
    requires forall r, c :: 0 <= r < Rows && 0 <= c < Cols ==> g[r][c] == h[r][c]
    ensures g == h
  {
    forall r | 0 <= r < Rows
      ensures g[r] == h[r]
    {
    }
  }

  /** The `inLink` flag of cell (r, c): some link group of row r holds column c. */
  predicate InLink(g: seq<seq<bool>>, r: nat, c: nat)
    requires r < |g|
  {
    exists k, j :: 0 <= k < |LinkNodes(g[r])| && 0 <= j < |LinkNodes(g[r])[k]|
      && LinkNodes(g[r])[k][j].node == c
  }

  /** The `priority` flag of cell (r, c); it fails when the grid's analysis does. */
  function IsPriority(g: seq<seq<bool>>, r: nat, c: nat): Result<bool, PriorityError>
    requires r < |g|
  {
    match AllPriorities(g)
    case Failure(e) => Failure(e)
    case Success(ps) => Success(c in ps[r])
  }

  /** A linked cell is occupied. */
  lemma InLinkOccupied(g: seq<seq<bool>>, r: nat, c: nat)
    requires r < |g| && InLink(g, r, c)
    ensures c < |g[r]| && g[r][c]
  {
    var row := g[r];
    LinkNodesShape(row);
    var L: seq<LinkCandidate>, S: seq<nat> := LinkNodes(row), LinkStarts(row);
    var k: nat, j: nat :| 0 <= k < |L| && 0 <= j < |L[k]| && L[k][j].node == c;
    assert Full(row, S[k]);
    assert c == S[k] + j;
  }

  /** A cell is never both in a link and a priority. */
  lemma FlagsExclusive(g: seq<seq<bool>>, r: nat, c: nat)
    requires r < |g|
    ensures !(InLink(g, r, c) && IsPriority(g, r, c) == Success(true))
  {
    if InLink(g, r, c) && IsPriority(g, r, c) == Success(true) {
      InLinkOccupied(g, r, c);
      PrioritiesPerRow(g);
      PriorityUnoccupied(g[r], c);
    }
  }

  // ---------------------------------------------------------------------
  // The grid object

  /** The page's grid signal: one occupancy flag per cell, changed in place by a click. */
  class Grid {
    var cells: array2<bool>

    ghost predicate Valid()
      reads this
    {
      cells.Length0 == Rows && cells.Length1 == Cols
    }

    /** The current occupancy, row by row. */
    function Snapshot(): (g: seq<seq<bool>>)
      reads this, cells
      requires Valid()
      ensures IsGrid(g)
      ensures forall r, c :: 0 <= r < Rows && 0 <= c < Cols ==> g[r][c] == cells[r, c]
    {
      var a := cells;
      seq(Rows, r requires 0 <= r < Rows reads a =>
        seq(Cols, c requires 0 <= c < Cols reads a => a[r, c]))
    }

    /** The grid starts as `initialGrid`, all cells unoccupied. */
    constructor ()
      ensures Valid() && fresh(cells)
      ensures Snapshot() == InitialGrid()
    {
      cells := new bool[Rows, Cols]((r, c) => false);
      new;
      SameGrid(Snapshot(), InitialGrid());
    }

    /** A click on (row, col) flips that cell and leaves every other cell as it was. */
    method Toggle(row: nat, col: nat)
      requires Valid() && row < Rows && col < Cols
      modifies cells
      ensures Valid()
      ensures Snapshot() == Flip(old(Snapshot()), row, col)
    {
      cells[row, col] := !cells[row, col];
      SameGrid(Snapshot(), Flip(old(Snapshot()), row, col));
    }
  }
}
