/**
 * The 81-cell sudoku board shared by both solvers: row-major cell indexes,
 * the row/column/3x3-box relation between cells ("peers"), and what a
 * complete solution is.
 */
module Board {

  /** Row of flat cell index `i` (the Dynamic solver's `index / 9`). */
  function Row(i: int): int { i / 9 }

  /** Column of flat cell index `i` (the Dynamic solver's `index % 9`). */
  function Col(i: int): int { i % 9 }

  /** Two cells (r1, c1) and (r2, c2) share a row, a column or a 3x3 box. */
  predicate SameUnit(r1: int, c1: int, r2: int, c2: int)
  {
    r1 == r2 || c1 == c2 || (r1 / 3 == r2 / 3 && c1 / 3 == c2 / 3)
  }

  /** Cell `p` is one of the 20 peers of cell `i`: a different cell of the board in the same unit. */
  predicate IsPeer(i: int, p: int)
  {
    0 <= i < 81 && 0 <= p < 81 && p != i && SameUnit(Row(i), Col(i), Row(p), Col(p))
  }

  lemma RowColOf(r: int, c: int)
    requires 0 <= r < 9 && 0 <= c < 9
    ensures Row(9 * r + c) == r && Col(9 * r + c) == c && 0 <= 9 * r + c < 81
  {
  }

  lemma IndexOf(i: int)
    requires 0 <= i < 81
    ensures 0 <= Row(i) < 9 && 0 <= Col(i) < 9 && i == 9 * Row(i) + Col(i)
  {
  }

  /** Being peers is symmetric. */
  lemma PeerSymmetric(i: int, p: int)
    requires IsPeer(i, p)
    ensures IsPeer(p, i)
  {
  }

  /**
   * A complete solution in row-major order: every cell holds a digit 1..9 and
   * no two peers hold the same digit.
   */
  ghost predicate IsSolution(sol: seq<int>)
  {
    && |sol| == 81
    && (forall i :: 0 <= i < 81 ==> 1 <= sol[i] <= 9)
    && (forall i, p :: IsPeer(i, p) ==> sol[i] != sol[p])
  }
}
