/**
 * Link detection for one row of the grid (src/App.tsx): the candidate
 * windows of `linkCandidates`, the greedy `reduce` of `linkNodes`, and the
 * unused imperative `findLinks`.
 *
 * A row is any sequence of occupancy flags; the grid's rows have nine.
 */
module Links {

  /** One cell of a candidate window: its column and whether it is occupied. */
  datatype LinkMember = LinkMember(node: nat, occupied: bool)

  /** A candidate window: the members of three consecutive columns. */
  type LinkCandidate = seq<LinkMember>

  /** Number of windows in a row: one per start column 0 .. |row| - 3. */
  function WindowCount(row: seq<bool>): nat
  {
    if |row| >= 3 then |row| - 2 else 0
  }

  /** The window starting at column i. */
  function Window(row: seq<bool>, i: nat): LinkCandidate
    requires i + 2 < |row|
  {
    [LinkMember(i, row[i]), LinkMember(i + 1, row[i + 1]), LinkMember(i + 2, row[i + 2])]
  }

  /** All three cells of the window starting at i are occupied. */
  predicate Full(row: seq<bool>, i: nat)
    requires i + 2 < |row|
  {
    row[i] && row[i + 1] && row[i + 2]
  }

  /** The first k windows, pushed in order of their start column. */
  function WindowsBelow(row: seq<bool>, k: nat): (ws: seq<LinkCandidate>)
    requires k <= WindowCount(row)
    ensures |ws| == k
    ensures forall i :: 0 <= i < k ==> ws[i] == Window(row, i)
  {
    if k == 0 then [] else WindowsBelow(row, k - 1) + [Window(row, k - 1)]
  }

  /** `linkCandidates` for one row: window i holds columns i, i+1, i+2 with their occupancy. */
  function Candidates(row: seq<bool>): (ws: seq<LinkCandidate>)
    ensures |ws| == WindowCount(row)
    ensures forall i :: 0 <= i < |ws| ==> ws[i] == Window(row, i)
    ensures forall i, j :: 0 <= i < |ws| && 0 <= j < 3 ==>
              |ws[i]| == 3 && ws[i][j] == LinkMember(i + j, row[i + j])
  {
    WindowsBelow(row, WindowCount(row))
  }

  // ---------------------------------------------------------------------
  // The fold of `linkNodes`

  /** `c.every(n => n.occupied)` */
  predicate AllOccupied(c: LinkCandidate)
  {
    forall k :: 0 <= k < |c| ==> c[k].occupied
  }

  /** `l.some(n => c.some(m => m.node === n.node))` */
  predicate SharesNode(l: LinkCandidate, c: LinkCandidate)
  {
    exists a, b :: 0 <= a < |l| && 0 <= b < |c| && l[a].node == c[b].node
  }

  /** `foundLinks.some(l => SharesNode(l, c))` */
  predicate OverlapsFound(found: seq<LinkCandidate>, c: LinkCandidate)
  {
    exists k :: 0 <= k < |found| && SharesNode(found[k], c)
  }

  /** One step of the reduce: keep c when it is full and overlaps no accepted group. */
  function Accept(found: seq<LinkCandidate>, c: LinkCandidate): seq<LinkCandidate>
  {
    if AllOccupied(c) && !OverlapsFound(found, c) then found + [c] else found
  }

  /** The left-to-right reduce over the candidates, starting from []. */
  function Accepted(cands: seq<LinkCandidate>): seq<LinkCandidate>
  {
    if cands == [] then [] else Accept(Accepted(cands[..|cands| - 1]), cands[|cands| - 1])
  }

  /** `linkNodes` for one row. */
  function LinkNodes(row: seq<bool>): seq<LinkCandidate>
  {
    Accepted(Candidates(row))
  }

  /**
   * Invariant of the reduce, for any candidates: it keeps at most all of
   * them, only full ones, and no two kept groups share a column.
   */
  lemma {:induction false} AcceptedSound(cands: seq<LinkCandidate>)
    ensures |Accepted(cands)| <= |cands|
    ensures forall g :: g in Accepted(cands) ==> g in cands && AllOccupied(g)
    ensures forall a, b :: 0 <= a < b < |Accepted(cands)| ==>
              !SharesNode(Accepted(cands)[a], Accepted(cands)[b])
  {
    if cands != [] {
      var prefix := cands[..|cands| - 1];
      var c := cands[|cands| - 1];
      AcceptedSound(prefix);
      var found := Accepted(prefix);
      assert forall g :: g in prefix ==> g in cands;
      if AllOccupied(c) && !OverlapsFound(found, c) {
        var next := found + [c];
        assert Accepted(cands) == next;
        forall a, b | 0 <= a < b < |next|
          ensures !SharesNode(next[a], next[b])
        {
          if b == |found| {
            assert next[a] == found[a];
          } else {
            assert next[a] == found[a] && next[b] == found[b];
          }
        }
      }
    }
  }

  // ---------------------------------------------------------------------
  // A reference definition over start columns

  function Last(s: seq<nat>): nat
    requires s != []
  {
    s[|s| - 1]
  }

  /** Increasing, and consecutive entries at least three apart (non-overlapping windows). */
  predicate Spaced(p: seq<nat>)
  {
    forall a, b :: 0 <= a < b < |p| ==> p[a] + 3 <= p[b]
  }

  /**
   * Start columns accepted among the first k windows, when a window is
   * accepted exactly if it is full and starts past the end of the last
   * accepted one.
   */
  function GreedyBelow(row: seq<bool>, k: nat): (p: seq<nat>)
    requires k <= WindowCount(row)
    ensures forall j :: 0 <= j < |p| ==> p[j] < k
  {
    if k == 0 then []
    else
      var p := GreedyBelow(row, k - 1);
      if Full(row, k - 1) && (p == [] || Last(p) + 3 <= k - 1) then p + [k - 1] else p
  }

  /** The reference starts increase at least three apart, and each starts a full window. */
  lemma {:induction false} GreedyShape(row: seq<bool>, k: nat)
    requires k <= WindowCount(row)
    ensures Spaced(GreedyBelow(row, k))
    ensures forall j :: 0 <= j < |GreedyBelow(row, k)| ==> Full(row, GreedyBelow(row, k)[j])
  {
    if k > 0 {
      var p := GreedyBelow(row, k - 1);
      GreedyShape(row, k - 1);
      if Full(row, k - 1) && (p == [] || Last(p) + 3 <= k - 1) {
        assert forall a :: 0 <= a < |p| ==> p[a] <= Last(p);
        assert GreedyBelow(row, k) == p + [k - 1];
      }
    }
  }

  /** Start columns of the link groups of a row. */
  function LinkStarts(row: seq<bool>): (p: seq<nat>)
    ensures forall j :: 0 <= j < |p| ==> p[j] + 2 < |row|
  {
    GreedyBelow(row, WindowCount(row))
  }

  /** The windows starting at the given columns. */
  function WindowsAt(row: seq<bool>, starts: seq<nat>): (ws: seq<LinkCandidate>)
    requires forall j :: 0 <= j < |starts| ==> starts[j] + 2 < |row|
    ensures |ws| == |starts|
    ensures forall j :: 0 <= j < |starts| ==> ws[j] == Window(row, starts[j])
  {
    if starts == [] then [] else WindowsAt(row, starts[..|starts| - 1]) + [Window(row, Last(starts))]
  }

  /** For spaced starts before i, window i overlaps one of their windows iff it overlaps the last. */
  lemma OverlapIffNearLast(row: seq<bool>, p: seq<nat>, i: nat)
    requires Spaced(p) && i + 2 < |row|
    requires forall j :: 0 <= j < |p| ==> p[j] < i
    ensures OverlapsFound(WindowsAt(row, p), Window(row, i)) <==> (p != [] && i < Last(p) + 3)
  {
    var found := WindowsAt(row, p);
    var w := Window(row, i);
    if p != [] && i < Last(p) + 3 {
      var l := found[|p| - 1];
      assert l[i - Last(p)].node == w[0].node;
      assert SharesNode(l, w);
    }
    if OverlapsFound(found, w) {
      var k :| 0 <= k < |found| && SharesNode(found[k], w);
      var a, b :| 0 <= a < |found[k]| && 0 <= b < |w| && found[k][a].node == w[b].node;
      assert p[k] <= Last(p);
    }
  }

  /** A window is all occupied exactly when its row is full there. */
  lemma AllOccupiedWindow(row: seq<bool>, i: nat)
    requires i + 2 < |row|
    ensures AllOccupied(Window(row, i)) == Full(row, i)
  {
    var w := Window(row, i);
    assert w[0].occupied == row[i] && w[1].occupied == row[i + 1] && w[2].occupied == row[i + 2];
  }

  /** Appending a start appends its window. */
  lemma WindowsAtSnoc(row: seq<bool>, p: seq<nat>, i: nat)
    requires i + 2 < |row|
    requires forall j :: 0 <= j < |p| ==> p[j] + 2 < |row|
    ensures WindowsAt(row, p + [i]) == WindowsAt(row, p) + [Window(row, i)]
  {
    assert (p + [i])[..|p|] == p;
  }

  /** One step of the reduce on windows at spaced starts, in terms of start columns. */
  lemma AcceptWindow(row: seq<bool>, p: seq<nat>, i: nat)
    requires Spaced(p) && i + 2 < |row|
    requires forall j :: 0 <= j < |p| ==> p[j] < i
    ensures Accept(WindowsAt(row, p), Window(row, i)) ==
              WindowsAt(row, if Full(row, i) && (p == [] || Last(p) + 3 <= i) then p + [i] else p)
  {
    OverlapIffNearLast(row, p, i);
    AllOccupiedWindow(row, i);
    WindowsAtSnoc(row, p, i);
  }

  /** Accepting window k - 1 after the first k - 1 reference windows gives the next reference windows. */
  lemma GreedyStep(row: seq<bool>, k: nat)
    requires 0 < k <= WindowCount(row)
    ensures Accept(WindowsAt(row, GreedyBelow(row, k - 1)), Window(row, k - 1)) ==
              WindowsAt(row, GreedyBelow(row, k))
  {
    var p := GreedyBelow(row, k - 1);
    GreedyShape(row, k - 1);
    AcceptWindow(row, p, k - 1);
    if Full(row, k - 1) && (p == [] || Last(p) + 3 <= k - 1) {
      assert GreedyBelow(row, k) == p + [k - 1];
    } else {
      assert GreedyBelow(row, k) == p;
    }
  }

  /** The reduce of `linkNodes` over the first k windows agrees with the reference. */
  lemma {:induction false} AcceptedIsGreedy(row: seq<bool>, k: nat)
    requires k <= WindowCount(row)
    ensures Accepted(WindowsBelow(row, k)) == WindowsAt(row, GreedyBelow(row, k))
  {
    if k > 0 {
      var prev := WindowsBelow(row, k - 1);
      var w := Window(row, k - 1);
      AcceptedIsGreedy(row, k - 1);
      assert WindowsBelow(row, k) == prev + [w];
      assert Accepted(prev + [w]) == Accept(Accepted(prev), w) by {
        assert (prev + [w])[..k - 1] == prev;
      }
      GreedyStep(row, k);
    }
  }

  /** `linkNodes` of a row is the list of windows at the reference starts. */
  lemma LinkNodesAreWindows(row: seq<bool>)
    ensures LinkNodes(row) == WindowsAt(row, LinkStarts(row))
  {
    AcceptedIsGreedy(row, WindowCount(row));
  }

  /** Windows at spaced starts share no column. */
  lemma SpacedWindowsDisjoint(row: seq<bool>, p: seq<nat>, a: nat, b: nat)
    requires Spaced(p) && a < |p| && b < |p| && a != b
    requires forall j :: 0 <= j < |p| ==> p[j] + 2 < |row|
    ensures !SharesNode(WindowsAt(row, p)[a], WindowsAt(row, p)[b])
  {
  }

  /**
   * The link groups of a row are full windows, listed in increasing start
   * order, pairwise disjoint.
   */
  lemma LinkNodesShape(row: seq<bool>)
    ensures |LinkNodes(row)| == |LinkStarts(row)|
    ensures forall j :: 0 <= j < |LinkNodes(row)| ==>
              LinkNodes(row)[j] == Window(row, LinkStarts(row)[j]) && Full(row, LinkStarts(row)[j])
    ensures forall j :: 0 <= j < |LinkNodes(row)| ==> AllOccupied(LinkNodes(row)[j])
    ensures Spaced(LinkStarts(row))
    ensures forall a, b :: 0 <= a < |LinkNodes(row)| && 0 <= b < |LinkNodes(row)| && a != b ==>
              !SharesNode(LinkNodes(row)[a], LinkNodes(row)[b])
  {
    LinkNodesAreWindows(row);
    GreedyShape(row, WindowCount(row));
    var L, S := LinkNodes(row), LinkStarts(row);
    forall j | 0 <= j < |L|
      ensures AllOccupied(L[j])
    {
      assert GreedyBelow(row, WindowCount(row))[j] == S[j];
      assert Full(row, S[j]);
    }
    forall a, b | 0 <= a < |L| && 0 <= b < |L| && a != b
      ensures !SharesNode(L[a], L[b])
    {
      SpacedWindowsDisjoint(row, S, a, b);
    }
  }

  /**
   * Window i is accepted iff it is full and no accepted window starting
   * before it reaches column i (earliest start wins).
   */
  lemma {:induction false} GreedyChoice(row: seq<bool>, k: nat, i: nat)
    requires i < k <= WindowCount(row)
    ensures i in GreedyBelow(row, k) <==>
              Full(row, i) && forall s :: s in GreedyBelow(row, k) && s < i ==> s + 3 <= i
  {
    var p := GreedyBelow(row, k - 1);
    var q := GreedyBelow(row, k);
    assert q == p || q == p + [k - 1];
    if i < k - 1 {
      GreedyChoice(row, k - 1, i);
      assert forall s :: s in q <==> s in p || (s == k - 1 && q != p);
    } else {
      GreedyShape(row, k - 1);
      assert i !in p;
      forall s | s in p
        ensures s <= Last(p) && s < i
      {
        var a :| 0 <= a < |p| && p[a] == s;
        assert a == |p| - 1 || p[a] + 3 <= p[|p| - 1];
      }
      if p != [] {
        assert Last(p) in q;
      }
    }
  }

  /** Every full window lies under a link group that starts at or before it. */
  lemma FullWindowCovered(row: seq<bool>, i: nat)
    requires i < WindowCount(row) && Full(row, i)
    ensures exists s :: s in LinkStarts(row) && s <= i < s + 3
  {
    GreedyChoice(row, WindowCount(row), i);
    if i !in LinkStarts(row) {
      var s :| s in LinkStarts(row) && s < i && i < s + 3;
    }
  }

  /** An all-occupied row of nine links columns 0-2, 3-5 and 6-8. */
  lemma AllOccupiedRow(row: seq<bool>)
    requires row == [true, true, true, true, true, true, true, true, true]
    ensures LinkStarts(row) == [0, 3, 6]
    ensures LinkNodes(row) == [Window(row, 0), Window(row, 3), Window(row, 6)]
  {
    assert Full(row, 0) && Full(row, 3) && Full(row, 6);
    assert GreedyBelow(row, 1) == [0];
    assert GreedyBelow(row, 2) == [0];
    assert GreedyBelow(row, 3) == [0];
    assert GreedyBelow(row, 4) == [0, 3];
    assert GreedyBelow(row, 5) == [0, 3];
    assert GreedyBelow(row, 6) == [0, 3];
    assert GreedyBelow(row, 7) == [0, 3, 6];
    LinkNodesAreWindows(row);
  }

  // ---------------------------------------------------------------------
  // Column lists: `linkIndices` and `findLinks`

  /** `c.map(n => n.node)` */
  function Nodes(c: LinkCandidate): seq<nat>
  {
    seq(|c|, j requires 0 <= j < |c| => c[j].node)
  }

  /** `groups.map(c => c.map(n => n.node)).flat()` */
  function LinkIndices(groups: seq<LinkCandidate>): seq<nat>
  {
    if groups == [] then [] else LinkIndices(groups[..|groups| - 1]) + Nodes(groups[|groups| - 1])
  }

  /** The three columns of each start, in order. */
  function Columns(starts: seq<nat>): seq<nat>
  {
    if starts == [] then []
    else Columns(starts[..|starts| - 1]) + [Last(starts), Last(starts) + 1, Last(starts) + 2]
  }

  lemma {:induction false} ColumnsMembers(p: seq<nat>, x: nat)
    ensures x in Columns(p) <==> exists j :: 0 <= j < |p| && p[j] <= x < p[j] + 3
  {
    if p != [] {
      var q := p[..|p| - 1];
      ColumnsMembers(q, x);
      if x in Columns(q) {
        var j :| 0 <= j < |q| && q[j] <= x < q[j] + 3;
        assert p[j] == q[j];
      }
      if exists j :: 0 <= j < |p| && p[j] <= x < p[j] + 3 {
        var j :| 0 <= j < |p| && p[j] <= x < p[j] + 3;
        if j < |q| {
          assert q[j] == p[j];
        }
      }
    }
  }

  /** For spaced starts before i, column i is listed iff the last group reaches it. */
  lemma ColumnsSkip(p: seq<nat>, i: nat)
    requires Spaced(p)
    requires forall j :: 0 <= j < |p| ==> p[j] < i
    ensures i in Columns(p) <==> (p != [] && i < Last(p) + 3)
  {
    ColumnsMembers(p, i);
    if i in Columns(p) {
      var j :| 0 <= j < |p| && p[j] <= i < p[j] + 3;
      assert p[j] <= Last(p);
    }
  }

  lemma {:induction false} IndicesOfWindows(row: seq<bool>, p: seq<nat>)
    requires forall j :: 0 <= j < |p| ==> p[j] + 2 < |row|
    ensures LinkIndices(WindowsAt(row, p)) == Columns(p)
  {
    if p != [] {
      var q := p[..|p| - 1];
      IndicesOfWindows(row, q);
      var ws := WindowsAt(row, p);
      assert ws[..|ws| - 1] == WindowsAt(row, q);
      assert Nodes(ws[|ws| - 1]) == [Last(p), Last(p) + 1, Last(p) + 2];
    }
  }

  /** Every column under a full window is occupied. */
  lemma ColumnsOccupied(row: seq<bool>, p: seq<nat>, x: nat)
    requires forall j :: 0 <= j < |p| ==> p[j] + 2 < |row| && Full(row, p[j])
    requires x in Columns(p)
    ensures x < |row| && row[x]
  {
    ColumnsMembers(p, x);
    var j :| 0 <= j < |p| && p[j] <= x < p[j] + 3;
    assert Full(row, p[j]);
    assert x == p[j] || x == p[j] + 1 || x == p[j] + 2;
  }

  /** `linkIndices` of a row lists the three columns of each reference start, in order. */
  lemma LinkIndicesAreColumns(row: seq<bool>)
    ensures LinkIndices(LinkNodes(row)) == Columns(LinkStarts(row))
  {
    LinkNodesAreWindows(row);
    IndicesOfWindows(row, LinkStarts(row));
  }

  /** Every column of a row's link groups is occupied. */
  lemma LinkedOccupied(row: seq<bool>)
    ensures forall x :: x in LinkIndices(LinkNodes(row)) ==> x < |row| && row[x]
  {
    LinkIndicesAreColumns(row);
    GreedyShape(row, WindowCount(row));
    var S := LinkStarts(row);
    forall x | x in Columns(S)
      ensures x < |row| && row[x]
    {
      ColumnsOccupied(row, S, x);
    }
  }

  /** `group.every((n) => n)` */
  predicate Every(group: seq<bool>)
  {
    forall j :: 0 <= j < |group| ==> group[j]
  }

  lemma EverySlice(row: seq<bool>, i: nat)
    requires i + 2 < |row|
    ensures Every(row[i..i + 3]) == Full(row, i)
  {
    var group := row[i..i + 3];
    assert group[0] == row[i] && group[1] == row[i + 1] && group[2] == row[i + 2];
  }

  /** One iteration of `findLinks`, in terms of the reference starts. */
  lemma FindLinksStep(row: seq<bool>, index: nat)
    requires index < WindowCount(row)
    ensures var links := Columns(GreedyBelow(row, index));
            Columns(GreedyBelow(row, index + 1)) ==
              if index in links then links
              else if Every(row[index..index + 3]) then links + [index, index + 1, index + 2]
              else links
  {
    var p := GreedyBelow(row, index);
    GreedyShape(row, index);
    ColumnsSkip(p, index);
    EverySlice(row, index);
    if Full(row, index) && (p == [] || Last(p) + 3 <= index) {
      assert GreedyBelow(row, index + 1) == p + [index];
      assert (p + [index])[..|p|] == p;
    } else {
      assert GreedyBelow(row, index + 1) == p;
    }
  }

  /**
   * `findLinks`: a loop that skips a start already listed and appends the
   * three columns of each full window. It lists exactly the columns of the
   * groups `linkNodes` accepts, in the same order.
   */
  method FindLinks(row: seq<bool>) returns (links: seq<nat>)
    ensures links == LinkIndices(LinkNodes(row))
  {
    links := [];
    var index := 0;
    while index < |row| - 2
      invariant index <= WindowCount(row)
      invariant links == Columns(GreedyBelow(row, index))
    {
      FindLinksStep(row, index);
      if index in links {
        index := index + 1;
        continue;
      }
      var group := row[index..index + 3];
      if Every(group) {
        links := links + [index, index + 1, index + 2];
      }
      index := index + 1;
    }
    assert index == WindowCount(row);
    LinkIndicesAreColumns(row);
  }
}
