/**
 * Priority analysis for one row (src/App.tsx, `priorityNodesNew`): every
 * window with exactly two occupied, unlinked cells nominates its first
 * unoccupied column. Nominations are not deduplicated, and a window whose
 * three cells are all occupied has no unoccupied column: the lookup of
 * `.node` on `undefined` fails, which the model reports as a Failure
 * carrying that window.
 */
module Priority {
  import opened Wrappers
  import opened Links

  /** `candidate.filter((n) => n.occupied && !linkIndices.includes(n.node))` */
  function Live(c: LinkCandidate, linked: seq<nat>): seq<LinkMember>
  {
    if c == [] then []
    else (if c[0].occupied && c[0].node !in linked then [c[0]] else []) + Live(c[1..], linked)
  }

  /** The filter keeps exactly the occupied, unlinked members, and no more than there are. */
  lemma {:induction false} LiveMembers(c: LinkCandidate, linked: seq<nat>)
    ensures |Live(c, linked)| <= |c|
    ensures forall m :: m in Live(c, linked) <==> m in c && m.occupied && m.node !in linked
  {
    if c != [] {
      LiveMembers(c[1..], linked);
      assert c == [c[0]] + c[1..];
    }
  }

  /**
   * `candidate.find((n) => !n.occupied)`, reduced to its column: None when
   * every member is occupied, otherwise the column of the first unoccupied
   * member.
   */
  function FirstUnoccupied(c: LinkCandidate): (r: Option<nat>)
    ensures r.None? <==> AllOccupied(c)
    ensures r.Some? ==> exists j :: 0 <= j < |c| && c[j] == LinkMember(r.value, false)
                          && forall m :: 0 <= m < j ==> c[m].occupied
  {
    if c == [] then None
    else if !c[0].occupied then
      assert c[0] == LinkMember(c[0].node, false);
      Some(c[0].node)
    else
      var r := FirstUnoccupied(c[1..]);
      assert r.Some? ==> exists j :: 0 <= j < |c| && c[j] == LinkMember(r.value, false)
                           && forall m :: 0 <= m < j ==> c[m].occupied by {
        if r.Some? {
          var j :| 0 <= j < |c[1..]| && c[1..][j] == LinkMember(r.value, false)
                   && forall m :: 0 <= m < j ==> c[1..][m].occupied;
          assert c[1 + j] == c[1..][j];
          assert forall m :: 1 <= m < 1 + j ==> c[m] == c[1..][m - 1];
        }
      }
      r
  }

  /** Window w has two live cells and names col as its first unoccupied column. */
  predicate Nominates(w: LinkCandidate, linked: seq<nat>, col: nat)
  {
    |Live(w, linked)| == 2 && FirstUnoccupied(w) == Some(col)
  }

  /** Window w has two live cells but no unoccupied column: `.node` of `undefined`. */
  predicate LookupFails(w: LinkCandidate, linked: seq<nat>)
  {
    |Live(w, linked)| == 2 && FirstUnoccupied(w).None?
  }

  /** The `forEach` over the candidates, pushing each nomination in window order. */
  function Nominations(cands: seq<LinkCandidate>, linked: seq<nat>): Result<seq<nat>, LinkCandidate>
  {
    if cands == [] then Success([])
    else if |Live(cands[0], linked)| == 2 then
      match FirstUnoccupied(cands[0])
      case None => Failure(cands[0])
      case Some(col) =>
        var rest := Nominations(cands[1..], linked);
        if rest.Failure? then rest else Success([col] + rest.value)
    else Nominations(cands[1..], linked)
  }

  /** `priorityNodesNew` for one row. */
  function PriorityNodes(row: seq<bool>): Result<seq<nat>, LinkCandidate>
  {
    Nominations(Candidates(row), LinkIndices(LinkNodes(row)))
  }

  // ---------------------------------------------------------------------
  // Nominations over any list of candidates

  /** The walk fails exactly at the first window whose lookup fails. */
  lemma {:induction false} NominationsFailure(cands: seq<LinkCandidate>, linked: seq<nat>)
    ensures Nominations(cands, linked).Failure? <==>
              exists k :: 0 <= k < |cands| && LookupFails(cands[k], linked)
    ensures Nominations(cands, linked).Failure? ==>
              exists k :: 0 <= k < |cands| && Nominations(cands, linked).error == cands[k]
                && LookupFails(cands[k], linked)
                && forall j :: 0 <= j < k ==> !LookupFails(cands[j], linked)
  {
    if cands != [] {
      var tail := cands[1..];
      NominationsFailure(tail, linked);
      assert forall k :: 0 <= k < |tail| ==> tail[k] == cands[k + 1];
      if !LookupFails(cands[0], linked) && Nominations(tail, linked).Failure? {
        var k :| 0 <= k < |tail| && Nominations(tail, linked).error == tail[k]
                 && LookupFails(tail[k], linked)
                 && forall j :: 0 <= j < k ==> !LookupFails(tail[j], linked);
        assert forall j :: 0 <= j < k + 1 ==> !LookupFails(cands[j], linked) by {
          forall j | 0 <= j < k + 1
            ensures !LookupFails(cands[j], linked)
          {
            if j > 0 {
              assert cands[j] == tail[j - 1];
            }
          }
        }
      }
      if exists k :: 0 <= k < |cands| && LookupFails(cands[k], linked) {
        var k :| 0 <= k < |cands| && LookupFails(cands[k], linked);
        if k > 0 {
          assert LookupFails(tail[k - 1], linked);
        }
      }
    }
  }

  /** On success, col is listed iff some window nominates it. */
  lemma {:induction false} NominationsMembers(cands: seq<LinkCandidate>, linked: seq<nat>, col: nat)
    requires Nominations(cands, linked).Success?
    ensures col in Nominations(cands, linked).value <==>
              exists k :: 0 <= k < |cands| && Nominates(cands[k], linked, col)
  {
    if cands != [] {
      var tail := cands[1..];
      assert Nominations(tail, linked).Success?;
      NominationsMembers(tail, linked, col);
      if exists k :: 0 <= k < |tail| && Nominates(tail[k], linked, col) {
        var k :| 0 <= k < |tail| && Nominates(tail[k], linked, col);
        assert cands[k + 1] == tail[k];
      }
      if exists k :: 0 <= k < |cands| && Nominates(cands[k], linked, col) {
        var k :| 0 <= k < |cands| && Nominates(cands[k], linked, col);
        if k > 0 {
          assert Nominates(tail[k - 1], linked, col);
        }
      }
    }
  }

  /** How many of the windows nominate col. */
  function NominatingWindows(cands: seq<LinkCandidate>, linked: seq<nat>, col: nat): nat
  {
    if cands == [] then 0
    else (if Nominates(cands[0], linked, col) then 1 else 0) + NominatingWindows(cands[1..], linked, col)
  }

  /** On success, col is listed once for every window that nominates it: nothing is deduplicated. */
  lemma {:induction false} NominationsCount(cands: seq<LinkCandidate>, linked: seq<nat>, col: nat)
    requires Nominations(cands, linked).Success?
    ensures multiset(Nominations(cands, linked).value)[col] == NominatingWindows(cands, linked, col)
  {
    if cands != [] {
      var tail := cands[1..];
      var rest := Nominations(tail, linked);
      assert rest.Success?;
      NominationsCount(tail, linked, col);
      if |Live(cands[0], linked)| == 2 {
        var c0 := FirstUnoccupied(cands[0]).value;
        assert Nominations(cands, linked).value == [c0] + rest.value;
        assert multiset([c0] + rest.value) == multiset([c0]) + multiset(rest.value);
      }
    }
  }

  /** A window with other than two live cells contributes nothing. */
  lemma SkipWindow(ws: seq<LinkCandidate>, k: nat, linked: seq<nat>)
    requires k < |ws| && |Live(ws[k], linked)| != 2
    ensures Nominations(ws[k..], linked) == Nominations(ws[k + 1..], linked)
  {
    assert ws[k..][1..] == ws[k + 1..];
  }

  /** A nominating window puts its column ahead of the later nominations. */
  lemma PushWindow(ws: seq<LinkCandidate>, k: nat, linked: seq<nat>, col: nat)
    requires k < |ws| && Nominates(ws[k], linked, col)
    requires Nominations(ws[k + 1..], linked).Success?
    ensures Nominations(ws[k..], linked) == Success([col] + Nominations(ws[k + 1..], linked).value)
  {
    assert ws[k..][1..] == ws[k + 1..];
  }

  /** A window whose lookup fails stops the walk with that window. */
  lemma FailWindow(ws: seq<LinkCandidate>, k: nat, linked: seq<nat>)
    requires k < |ws| && LookupFails(ws[k], linked)
    ensures Nominations(ws[k..], linked) == Failure(ws[k])
  {
  }

  /** When no window has exactly two live cells, nothing is nominated. */
  lemma {:induction false} NominationsNone(cands: seq<LinkCandidate>, linked: seq<nat>)
    requires forall k :: 0 <= k < |cands| ==> |Live(cands[k], linked)| != 2
    ensures Nominations(cands, linked) == Success([])
  {
    if cands != [] {
      assert forall k :: 0 <= k < |cands[1..]| ==> cands[1..][k] == cands[k + 1];
      NominationsNone(cands[1..], linked);
    }
  }

  // ---------------------------------------------------------------------
  // Priorities of a row

  /** Live cells of a window: occupied and not among the linked columns. */
  function LiveCell(row: seq<bool>, x: nat, linked: seq<nat>): nat
    requires x < |row|
  {
    if row[x] && x !in linked then 1 else 0
  }

  lemma LiveWindow(row: seq<bool>, i: nat, linked: seq<nat>)
    requires i + 2 < |row|
    ensures |Live(Window(row, i), linked)| ==
              LiveCell(row, i, linked) + LiveCell(row, i + 1, linked) + LiveCell(row, i + 2, linked)
  {
    var w := Window(row, i);
    assert w[1..] == [LinkMember(i + 1, row[i + 1]), LinkMember(i + 2, row[i + 2])];
    assert w[1..][1..] == [LinkMember(i + 2, row[i + 2])];
    assert w[1..][1..][1..] == [];
    assert |Live(w[1..][1..], linked)| == LiveCell(row, i + 2, linked);
    assert |Live(w[1..], linked)| == LiveCell(row, i + 1, linked) + LiveCell(row, i + 2, linked);
  }

  lemma FirstUnoccupiedWindow(row: seq<bool>, i: nat)
    requires i + 2 < |row|
    ensures FirstUnoccupied(Window(row, i)) ==
              if !row[i] then Some(i) else if !row[i + 1] then Some(i + 1)
              else if !row[i + 2] then Some(i + 2) else None
  {
    var w := Window(row, i);
    assert w[1..] == [LinkMember(i + 1, row[i + 1]), LinkMember(i + 2, row[i + 2])];
    assert w[1..][1..] == [LinkMember(i + 2, row[i + 2])];
    assert w[1..][1..][1..] == [];
    assert FirstUnoccupied(w[1..][1..]) == if !row[i + 2] then Some(i + 2) else None;
    assert FirstUnoccupied(w[1..]) ==
             if !row[i + 1] then Some(i + 1) else if !row[i + 2] then Some(i + 2) else None;
  }

  /**
   * On success, col is a priority of the row iff some window has exactly two
   * occupied, unlinked cells and col is that window's first unoccupied column.
   */
  lemma PriorityMembers(row: seq<bool>, col: nat)
    requires PriorityNodes(row).Success?
    ensures col in PriorityNodes(row).value <==>
              exists i :: 0 <= i < WindowCount(row) && Nominates(Window(row, i), LinkIndices(LinkNodes(row)), col)
  {
    var ws := Candidates(row);
    NominationsMembers(ws, LinkIndices(LinkNodes(row)), col);
  }

  /** On success, col appears in the row's priorities once per window of the row that nominates it. */
  lemma PriorityCount(row: seq<bool>, col: nat)
    requires PriorityNodes(row).Success?
    ensures multiset(PriorityNodes(row).value)[col] ==
              NominatingWindows(Candidates(row), LinkIndices(LinkNodes(row)), col)
  {
    NominationsCount(Candidates(row), LinkIndices(LinkNodes(row)), col);
  }

  /**
   * Every priority column is an unoccupied cell of the row, and so is never
   * one of the row's linked columns.
   */
  lemma PriorityUnoccupied(row: seq<bool>, col: nat)
    requires PriorityNodes(row).Success? && col in PriorityNodes(row).value
    ensures col < |row| && !row[col]
    ensures col !in LinkIndices(LinkNodes(row))
  {
    PriorityMembers(row, col);
    var linked := LinkIndices(LinkNodes(row));
    var i :| 0 <= i < WindowCount(row) && Nominates(Window(row, i), linked, col);
    var w := Window(row, i);
    var j :| 0 <= j < |w| && w[j] == LinkMember(col, false) && forall m :: 0 <= m < j ==> w[m].occupied;
    assert col == i + j && !row[i + j];
    LinkedOccupied(row);
  }

  /**
   * The row's analysis fails iff some window is fully occupied and still has
   * two unlinked cells, that is, exactly one of its cells is linked; the
   * failure reports the first such window.
   */
  lemma PriorityFailure(row: seq<bool>)
    ensures PriorityNodes(row).Failure? <==>
              exists i :: 0 <= i < WindowCount(row) && Full(row, i)
                && |Live(Window(row, i), LinkIndices(LinkNodes(row)))| == 2
    ensures PriorityNodes(row).Failure? ==>
              exists i :: 0 <= i < WindowCount(row) && PriorityNodes(row).error == Window(row, i)
                && Full(row, i) && |Live(Window(row, i), LinkIndices(LinkNodes(row)))| == 2
                && forall j :: 0 <= j < i ==> !(Full(row, j) && |Live(Window(row, j), LinkIndices(LinkNodes(row)))| == 2)
  {
    var ws := Candidates(row);
    var linked := LinkIndices(LinkNodes(row));
    NominationsFailure(ws, linked);
    forall i | 0 <= i < WindowCount(row)
      ensures LookupFails(ws[i], linked) <==> Full(row, i) && |Live(Window(row, i), linked)| == 2
    {
      var w := Window(row, i);
      assert AllOccupied(w) <==> Full(row, i) by {
        assert w[0].occupied == row[i] && w[1].occupied == row[i + 1] && w[2].occupied == row[i + 2];
      }
    }
  }

  /** A failing window has exactly one linked cell. */
  lemma FailingWindowHasOneLinkedCell(row: seq<bool>, i: nat, linked: seq<nat>)
    requires i + 2 < |row| && Full(row, i) && |Live(Window(row, i), linked)| == 2
    ensures (if i in linked then 1 else 0) + (if i + 1 in linked then 1 else 0)
              + (if i + 2 in linked then 1 else 0) == 1
  {
    LiveWindow(row, i, linked);
  }
}
