/**
 * The kind each cell is drawn as (the `Switch`/`Match` of src/App.tsx):
 * cubes and cones on the two upper rows, hybrids on the bottom row, and a
 * "Not Found" fallback for any address no case matches.
 */
module Kinds {
  import opened Wrappers

  datatype NodeType = Cone | Cube | Hybrid

  /** `rowIndex < 2 && [1, 4, 7].includes(nodeIndex)` */
  predicate IsCubeCell(row: nat, col: nat)
  {
    row < 2 && col in [1, 4, 7]
  }

  /** `rowIndex < 2 && [0, 2, 3, 5, 6, 8].includes(nodeIndex)` */
  predicate IsConeCell(row: nat, col: nat)
  {
    row < 2 && col in [0, 2, 3, 5, 6, 8]
  }

  /** `rowIndex === 2` */
  predicate IsHybridCell(row: nat, col: nat)
  {
    row == 2
  }

  /**
   * The `Switch`: the first matching case, or None for the fallback. On the
   * 3 x 9 grid the fallback is never taken; cubes are the middle column of
   * each group of three on the upper rows, cones the outer two.
   */
  function Kind(row: nat, col: nat): (k: Option<NodeType>)
    ensures row < 3 && col < 9 ==> k.Some?
    ensures k == Some(Cube) <==> row < 2 && col < 9 && col % 3 == 1
    ensures k == Some(Cone) <==> row < 2 && col < 9 && col % 3 != 1
    ensures k == Some(Hybrid) <==> row == 2
  {
    if IsCubeCell(row, col) then Some(Cube)
    else if IsConeCell(row, col) then Some(Cone)
    else if IsHybridCell(row, col) then Some(Hybrid)
    else None
  }

  /** At most one case matches any address, so the order of the cases does not matter. */
  lemma KindCasesExclusive(row: nat, col: nat)
    ensures !(IsCubeCell(row, col) && IsConeCell(row, col))
    ensures !(IsCubeCell(row, col) && IsHybridCell(row, col))
    ensures !(IsConeCell(row, col) && IsHybridCell(row, col))
  {
  }
}
