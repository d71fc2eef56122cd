/**
 * Worked rows of nine cells: the link groups and priorities the rules
 * produce for them, including the duplicate nomination and the failing
 * lookup.
 */
module Scenarios {
  import opened Wrappers
  import opened Links
  import opened Priority

  lemma CandidatesOfNine(row: seq<bool>)
    requires |row| == 9
    ensures Candidates(row) == [Window(row, 0), Window(row, 1), Window(row, 2), Window(row, 3),
                                Window(row, 4), Window(row, 5), Window(row, 6)]
  {
  }

  /** Occupied at 0, 1 and 3 only: no window is full. */
  lemma NoLinksWithGap(row: seq<bool>)
    requires row == [true, true, false, true, false, false, false, false, false]
    ensures LinkNodes(row) == [] && LinkIndices(LinkNodes(row)) == []
  {
    assert GreedyBelow(row, 1) == [];
    assert GreedyBelow(row, 2) == [];
    assert GreedyBelow(row, 3) == [];
    assert GreedyBelow(row, 4) == [];
    assert GreedyBelow(row, 5) == [];
    assert GreedyBelow(row, 6) == [];
    assert GreedyBelow(row, 7) == [];
    LinkNodesAreWindows(row);
  }

  /** Occupied at 0, 1 and 3: windows 2 to 6 hold at most one occupied cell and nominate nothing. */
  lemma GapTail(row: seq<bool>)
    requires row == [true, true, false, true, false, false, false, false, false]
    ensures Nominations(Candidates(row)[2..], []) == Success([])
  {
    CandidatesOfNine(row);
    var ws := Candidates(row);
    var linked: seq<nat> := [];
    assert ws[7..] == [];
    LiveWindow(row, 6, linked);
    SkipWindow(ws, 6, linked);
    LiveWindow(row, 5, linked);
    SkipWindow(ws, 5, linked);
    LiveWindow(row, 4, linked);
    SkipWindow(ws, 4, linked);
    LiveWindow(row, 3, linked);
    SkipWindow(ws, 3, linked);
    LiveWindow(row, 2, linked);
    SkipWindow(ws, 2, linked);
  }

  /** Occupied at 0, 1 and 3: no link, and column 2 is nominated by windows 0 and 1, twice. */
  lemma DuplicateNomination(row: seq<bool>)
    requires row == [true, true, false, true, false, false, false, false, false]
    ensures LinkNodes(row) == []
    ensures PriorityNodes(row) == Success([2, 2])
  {
    NoLinksWithGap(row);
    GapTail(row);
    CandidatesOfNine(row);
    var ws := Candidates(row);
    var linked: seq<nat> := [];
    LiveWindow(row, 1, linked);
    FirstUnoccupiedWindow(row, 1);
    PushWindow(ws, 1, linked, 2);
    assert [2] + Nominations(ws[2..], linked).value == [2];
    LiveWindow(row, 0, linked);
    FirstUnoccupiedWindow(row, 0);
    PushWindow(ws, 0, linked, 2);
    assert ws[0..] == ws;
    assert [2] + [2] == [2, 2];
  }

  /** Only the window at 0 is accepted when it is full and columns 5-8 are empty. */
  lemma FirstStartOnly(row: seq<bool>)
    requires |row| == 9 && row[0] && row[1] && row[2] && !row[5] && !row[6] && !row[7] && !row[8]
    ensures LinkStarts(row) == [0]
  {
    assert GreedyBelow(row, 1) == [0];
    assert GreedyBelow(row, 2) == [0];
    assert GreedyBelow(row, 3) == [0];
    assert GreedyBelow(row, 4) == [0];
    assert GreedyBelow(row, 5) == [0];
    assert GreedyBelow(row, 6) == [0];
    assert GreedyBelow(row, 7) == [0];
  }

  /** Links at 0 only, for rows that start with a full window and have columns 5-8 empty. */
  lemma FirstWindowOnly(row: seq<bool>)
    requires |row| == 9 && row[0] && row[1] && row[2] && !row[5] && !row[6] && !row[7] && !row[8]
    ensures LinkNodes(row) == [Window(row, 0)]
    ensures LinkIndices(LinkNodes(row)) == [0, 1, 2]
  {
    FirstStartOnly(row);
    LinkNodesAreWindows(row);
    LinkIndicesAreColumns(row);
    assert Columns([0]) == [0, 1, 2] by {
      assert [0][..0] == [];
    }
  }

  /** The first three cells occupied: one link, and no priority beside it. */
  lemma LinkedPrefix(row: seq<bool>)
    requires row == [true, true, true, false, false, false, false, false, false]
    ensures LinkNodes(row) == [Window(row, 0)]
    ensures PriorityNodes(row) == Success([])
  {
    FirstWindowOnly(row);
    var linked: seq<nat> := [0, 1, 2];
    forall i | 0 <= i < 7
      ensures |Live(Window(row, i), linked)| != 2
    {
      LiveWindow(row, i, linked);
    }
    NominationsNone(Candidates(row), linked);
  }

  /** An empty row: no link and no priority. */
  lemma EmptyRow(row: seq<bool>)
    requires row == [false, false, false, false, false, false, false, false, false]
    ensures LinkNodes(row) == []
    ensures PriorityNodes(row) == Success([])
  {
    assert GreedyBelow(row, 1) == [];
    assert GreedyBelow(row, 2) == [];
    assert GreedyBelow(row, 3) == [];
    assert GreedyBelow(row, 4) == [];
    assert GreedyBelow(row, 5) == [];
    assert GreedyBelow(row, 6) == [];
    assert GreedyBelow(row, 7) == [];
    LinkNodesAreWindows(row);
    var linked: seq<nat> := [];
    forall i | 0 <= i < 7
      ensures |Live(Window(row, i), linked)| != 2
    {
      LiveWindow(row, i, linked);
    }
    NominationsNone(Candidates(row), linked);
  }

  /**
   * Five occupied cells then four empty: window 2 has cells 3 and 4 occupied
   * and unlinked and cell 2 occupied but linked, so it has no unoccupied
   * cell and the lookup fails there.
   */
  lemma UndefinedLookup(row: seq<bool>)
    requires row == [true, true, true, true, true, false, false, false, false]
    ensures LinkNodes(row) == [Window(row, 0)]
    ensures PriorityNodes(row) == Failure(Window(row, 2))
  {
    FirstWindowOnly(row);
    CandidatesOfNine(row);
    var ws := Candidates(row);
    var linked: seq<nat> := [0, 1, 2];
    LiveWindow(row, 2, linked);
    FirstUnoccupiedWindow(row, 2);
    FailWindow(ws, 2, linked);
    LiveWindow(row, 1, linked);
    SkipWindow(ws, 1, linked);
    LiveWindow(row, 0, linked);
    SkipWindow(ws, 0, linked);
    assert ws[0..] == ws;
  }
}
