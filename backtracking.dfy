/**
 * The naive cursor-backtracking solver, ported three times with the same
 * logic (Java, Rust, Go). A grid holds digits 1..9 and 0 for a blank; its
 * 9x9 cells are stored row-major in one array of 81 entries, cell (row, col)
 * at index `9 * row + col`. Clues (non-zero input cells) are "fixed".
 */
module Backtracking {
  import opened Board

  /** Index of cell (row, col). */
  function At(row: int, col: int): int { 9 * row + col }

  // ---------------------------------------------------------------------------
  // What the validators decide.

  /** No peer of cell `i` (same row, column or box) holds the value of `i`. */
  ghost predicate CellValid(s: seq<int>, i: int)
    requires |s| == 81 && 0 <= i < 81
  {
    forall p :: IsPeer(i, p) ==> s[p] != s[i]
  }

  /** Every filled cell is valid. */
  ghost predicate Valid(s: seq<int>)
  {
    |s| == 81 && forall i :: 0 <= i < 81 && s[i] > 0 ==> CellValid(s, i)
  }

  /** No cell is blank. */
  predicate Solved(s: seq<int>)
  {
    forall i :: 0 <= i < |s| ==> s[i] != 0
  }

  /** Every cell holds a blank or a digit. */
  predicate InDigits(s: seq<int>)
  {
    forall i :: 0 <= i < |s| ==> 0 <= s[i] <= 9
  }

  /** `sol` keeps every clue of `sud`. */
  ghost predicate Extends(sol: seq<int>, sud: seq<int>)
  {
    |sol| == 81 && |sud| == 81 && forall i :: 0 <= i < 81 && sud[i] > 0 ==> sol[i] == sud[i]
  }

  /** A grid of blanks and digits is a complete solution exactly when it is valid and has no blank. */
  lemma ValidSolvedIsSolution(s: seq<int>)
    requires |s| == 81 && InDigits(s)
    ensures Valid(s) && Solved(s) <==> IsSolution(s)
  {
    if Valid(s) && Solved(s) {
      forall i, p | IsPeer(i, p) ensures s[i] != s[p] {
        assert CellValid(s, i);
      }
    }
    if IsSolution(s) {
      forall i | 0 <= i < 81 && s[i] > 0 ensures CellValid(s, i) {
        forall p | IsPeer(i, p) ensures s[p] != s[i] {
          assert s[i] != s[p];
        }
      }
    }
  }

  /** Clearing a cell keeps a grid valid. */
  lemma ValidClear(s: seq<int>, c: int)
    requires Valid(s) && 0 <= c < 81
    ensures Valid(s[c := 0])
  {
    var t := s[c := 0];
    forall i | 0 <= i < 81 && t[i] > 0 ensures CellValid(t, i) {
      assert CellValid(s, i);
    }
  }

  /** Filling a blank cell with a value valid there keeps a grid valid. */
  lemma ValidFill(s: seq<int>, c: int, v: int)
    requires Valid(s) && 0 <= c < 81 && s[c] == 0 && v > 0 && CellValid(s[c := v], c)
    ensures Valid(s[c := v])
  {
    var t := s[c := v];
    forall i | 0 <= i < 81 && t[i] > 0 ensures CellValid(t, i) {
      if i != c {
        assert CellValid(s, i);
        forall p | IsPeer(i, p) ensures t[p] != t[i] {
          if p == c {
            PeerSymmetric(i, p);
          }
        }
      }
    }
  }

  // ---------------------------------------------------------------------------
  // The validators.

  /** Which cells are clues (`sudGetFixed`). */
  method GetFixed(sud: array<int>) returns (z: seq<bool>)
    requires sud.Length == 81
    ensures |z| == 81 && forall i :: 0 <= i < 81 ==> z[i] == (sud[i] > 0)
  {
    z := [];
    for r := 0 to 9
      invariant |z| == 9 * r && forall i :: 0 <= i < 9 * r ==> z[i] == (sud[i] > 0)
    {
      for c := 0 to 9
        invariant |z| == 9 * r + c && forall i :: 0 <= i < 9 * r + c ==> z[i] == (sud[i] > 0)
      {
        z := z + [sud[At(r, c)] > 0];
      }
    }
  }

  /** The grid has no blank (`sudIsSolved`). */
  method IsSolved(sud: array<int>) returns (solved: bool)
    requires sud.Length == 81
    ensures solved == Solved(sud[..])
  {
    for r := 0 to 9
      invariant forall i :: 0 <= i < 9 * r ==> sud[i] != 0
    {
      for c := 0 to 9
        invariant forall i :: 0 <= i < 9 * r + c ==> sud[i] != 0
      {
        if sud[At(r, c)] == 0 {
          return false;
        }
      }
    }
    return true;
  }

  /** Every filled cell passes the cell check (`sudIsValid`). */
  method IsValid(sud: array<int>) returns (valid: bool)
    requires sud.Length == 81
    ensures valid == Valid(sud[..])
  {
    for r := 0 to 9
      invariant forall i :: 0 <= i < 9 * r && sud[i] > 0 ==> CellValid(sud[..], i)
    {
      for c := 0 to 9
        invariant forall i :: 0 <= i < 9 * r + c && sud[i] > 0 ==> CellValid(sud[..], i)
      {
        if sud[At(r, c)] > 0 {
          var ok := CellIsValid(sud, r, c);
          if !ok {
            return false;
          }
        }
      }
    }
    return true;
  }

  /** Cell `p` of the row, column or box of (row, col), other than the cell itself, is its peer. */
  lemma PeerOf(row: int, col: int, r: int, c: int)
    requires 0 <= row < 9 && 0 <= col < 9 && 0 <= r < 9 && 0 <= c < 9 && (r != row || c != col)
    requires r == row || c == col || (r / 3 == row / 3 && c / 3 == col / 3)
    ensures IsPeer(At(row, col), At(r, c))
  {
    RowColOf(row, col);
    RowColOf(r, c);
  }

  /** Every peer of (row, col) is in its row, its column or its box. */
  lemma PeerCases(row: int, col: int, p: int)
    requires 0 <= row < 9 && 0 <= col < 9 && IsPeer(At(row, col), p)
    ensures p == At(Row(p), Col(p)) && 0 <= Row(p) < 9 && 0 <= Col(p) < 9
    ensures || (Row(p) == row && Col(p) != col)
            || (Col(p) == col && Row(p) != row)
            || (&& 3 * (row / 3) <= Row(p) < 3 * (row / 3) + 3
                && 3 * (col / 3) <= Col(p) < 3 * (col / 3) + 3)
  {
    var i, r, c := At(row, col), Row(p), Col(p);
    RowColOf(row, col);
    IndexOf(p);
    assert Row(i) == row && Col(i) == col;
    assert SameUnit(row, col, r, c);
    if r != row && c != col {
      assert row / 3 == r / 3 && col / 3 == c / 3;
      SameThird(row, r);
      SameThird(col, c);
    }
  }

  /** Two coordinates 0..8 with the same quotient by 3 lie in the same band of three. */
  lemma SameThird(x: int, y: int)
    requires 0 <= x < 9 && 0 <= y < 9
    ensures x / 3 == y / 3 <==> 3 * (x / 3) <= y < 3 * (x / 3) + 3
  {
    if x < 3 {
    } else if x < 6 {
    } else {
    }
  }

  /**
   * Cell (row, col) is valid exactly when no other cell of its row, its
   * column or its box (whose top-left corner is (rowStart, colStart)) holds
   * its value.
   */
  lemma CellValidUnits(s: seq<int>, row: int, col: int, rowStart: int, colStart: int)
    requires |s| == 81 && 0 <= row < 9 && 0 <= col < 9
    requires rowStart == 3 * (row / 3) && colStart == 3 * (col / 3)
    ensures var val := s[At(row, col)];
      CellValid(s, At(row, col)) <==>
        && (forall c' :: 0 <= c' < 9 && c' != col ==> s[At(row, c')] != val)
        && (forall r' :: 0 <= r' < 9 && r' != row ==> s[At(r', col)] != val)
        && (forall r', c' :: InBox(r', c', row, col, rowStart, colStart) ==> s[At(r', c')] != val)
  {
    if CellValid(s, At(row, col)) {
      ValidClearsUnits(s, row, col, rowStart, colStart);
    } else {
      var p :| IsPeer(At(row, col), p) && s[p] == s[At(row, col)];
      ClashInUnit(s, row, col, rowStart, colStart, p);
    }
  }

  lemma ValidClearsUnits(s: seq<int>, row: int, col: int, rowStart: int, colStart: int)
    requires |s| == 81 && 0 <= row < 9 && 0 <= col < 9
    requires rowStart == 3 * (row / 3) && colStart == 3 * (col / 3)
    requires CellValid(s, At(row, col))
    ensures var val := s[At(row, col)];
      && (forall c' :: 0 <= c' < 9 && c' != col ==> s[At(row, c')] != val)
      && (forall r' :: 0 <= r' < 9 && r' != row ==> s[At(r', col)] != val)
      && (forall r', c' :: InBox(r', c', row, col, rowStart, colStart) ==> s[At(r', c')] != val)
  {
    var val := s[At(row, col)];
    forall c' | 0 <= c' < 9 && c' != col ensures s[At(row, c')] != val {
      PeerOf(row, col, row, c');
    }
    forall r' | 0 <= r' < 9 && r' != row ensures s[At(r', col)] != val {
      PeerOf(row, col, r', col);
    }
    forall r', c' | InBox(r', c', row, col, rowStart, colStart) ensures s[At(r', c')] != val {
      SameThird(row, r');
      SameThird(col, c');
      PeerOf(row, col, r', c');
    }
  }

  /** A peer holding the same value lies in the row, the column or the box of (row, col). */
  lemma ClashInUnit(s: seq<int>, row: int, col: int, rowStart: int, colStart: int, p: int)
    requires |s| == 81 && 0 <= row < 9 && 0 <= col < 9
    requires rowStart == 3 * (row / 3) && colStart == 3 * (col / 3)
    requires IsPeer(At(row, col), p) && s[p] == s[At(row, col)]
    ensures var val := s[At(row, col)];
      || (0 <= Col(p) < 9 && Col(p) != col && s[At(row, Col(p))] == val)
      || (0 <= Row(p) < 9 && Row(p) != row && s[At(Row(p), col)] == val)
      || (InBox(Row(p), Col(p), row, col, rowStart, colStart) && s[At(Row(p), Col(p))] == val)
  {
    PeerCases(row, col, p);
  }

  /** Cell (r, c) lies in the box with top-left corner (rowStart, colStart) and is not (row, col). */
  predicate InBox(r: int, c: int, row: int, col: int, rowStart: int, colStart: int)
  {
    rowStart <= r < rowStart + 3 && colStart <= c < colStart + 3 && (r != row || c != col)
  }

  /** No other cell of the row, column or box of (row, col) holds its value (`sudCellIsValid`). */
  method CellIsValid(sud: array<int>, row: int, col: int) returns (valid: bool)
    requires sud.Length == 81 && 0 <= row < 9 && 0 <= col < 9
    ensures valid == CellValid(sud[..], At(row, col))
  {
    var val := sud[At(row, col)];
    var rowStart := 3 * (row / 3);
    var colStart := 3 * (col / 3);
    CellValidUnits(sud[..], row, col, rowStart, colStart);
    for c := 0 to 9
      invariant forall c' :: 0 <= c' < c && c' != col ==> sud[At(row, c')] != val
    {
      if c == col {
        continue;
      }
      if sud[At(row, c)] == val {
        return false;
      }
    }
    for r := 0 to 9
      invariant forall r' :: 0 <= r' < r && r' != row ==> sud[At(r', col)] != val
    {
      if r == row {
        continue;
      }
      if sud[At(r, col)] == val {
        return false;
      }
    }
    valid := BoxClear(sud, row, col, val, rowStart, colStart);
  }

  /** The third loop of `sudCellIsValid`: no other cell of the box of (row, col) holds `val`. */
  method BoxClear(sud: array<int>, row: int, col: int, val: int, rowStart: int, colStart: int) returns (clear: bool)
    requires sud.Length == 81 && 0 <= rowStart <= 6 && 0 <= colStart <= 6
    ensures clear <==> forall r', c' :: InBox(r', c', row, col, rowStart, colStart) ==> sud[At(r', c')] != val
  {
    for r := rowStart to rowStart + 3
      invariant forall r', c' :: InBox(r', c', row, col, rowStart, colStart) && r' < r ==> sud[At(r', c')] != val
    {
      for c := colStart to colStart + 3
        invariant forall r', c' :: InBox(r', c', row, col, rowStart, colStart) && r' < r ==> sud[At(r', c')] != val
        invariant forall c' :: InBox(r, c', row, col, rowStart, colStart) && c' < c ==> sud[At(r, c')] != val
      {
        if r == row && c == col {
          continue;
        }
        if sud[At(r, c)] == val {
          return false;
        }
      }
    }
    return true;
  }

  // ---------------------------------------------------------------------------
  // Stepping the cursor.

  /**
   * The next (`inc == 1`) or previous (`inc == -1`) cell in row-major order
   * that is not a clue, or (9, 9) when there is none (`sudStep`). The first
   * call starts from (0, -1), just before the first cell.
   */
  method Step(fixed: seq<bool>, row0: int, col0: int, inc: int) returns (row: int, col: int)
    requires |fixed| == 81 && (inc == 1 || inc == -1) && 0 <= row0 < 9
    requires (if inc == 1 then -1 else 0) <= col0 < 9
    ensures var p, q := At(row0, col0), At(row, col);
      if row == 9 then
        && col == 9
        && (inc == 1 ==> forall i :: p < i < 81 ==> fixed[i])
        && (inc == -1 ==> forall i :: 0 <= i < p ==> fixed[i])
      else
        && 0 <= row < 9 && 0 <= col < 9 && !fixed[q]
        && (inc == 1 ==> p < q && forall i :: p < i < q ==> fixed[i])
        && (inc == -1 ==> q < p && forall i :: q < i < p ==> fixed[i])
  {
    var p := At(row0, col0);
    row, col := row0, col0;
    while true
      invariant 0 <= row < 9 && (if inc == 1 then -1 else 0) <= col < 9
      invariant inc == 1 ==> p <= At(row, col) && forall i :: p < i <= At(row, col) ==> fixed[i]
      invariant inc == -1 ==> At(row, col) <= p && forall i :: At(row, col) <= i < p ==> fixed[i]
      decreases if inc == 1 then 81 - At(row, col) else At(row, col)
    {
      col := col + inc;
      if col < 0 {
        col := 8;
        row := row - 1;
      } else if col > 8 {
        col := 0;
        row := row + 1;
      }
      if row < 0 || row > 8 {
        return 9, 9;
      }
      if !fixed[At(row, col)] {
        return;
      }
    }
  }

  /**
   * The Rust port starts stepping from column `-1_isize as usize`; the
   * 64-bit two's-complement casts give back -1 inside `sud_step`.
   */
  function AsUsize(x: int): int
    requires -0x8000_0000_0000_0000 <= x < 0x8000_0000_0000_0000
  {
    if x < 0 then x + 0x1_0000_0000_0000_0000 else x
  }

  function AsIsize(u: int): int
    requires 0 <= u < 0x1_0000_0000_0000_0000
  {
    if u >= 0x8000_0000_0000_0000 then u - 0x1_0000_0000_0000_0000 else u
  }

  lemma CastRoundTrip(x: int)
    requires -0x8000_0000_0000_0000 <= x < 0x8000_0000_0000_0000
    ensures 0 <= AsUsize(x) < 0x1_0000_0000_0000_0000 && AsIsize(AsUsize(x)) == x
    ensures AsUsize(-1) == 0xFFFF_FFFF_FFFF_FFFF
  {
  }

  // ---------------------------------------------------------------------------
  // The search loop: its state and why it is correct.

  /**
   * Solution `sol` is lexicographically after grid `g` at the cursor `c`:
   * the first cell where they differ is at or before `c`, and `sol` is larger there.
   */
  ghost predicate Ahead(sol: seq<int>, g: seq<int>, c: int)
    requires |sol| == 81 && |g| == 81
  {
    exists j :: 0 <= j <= c && j < 81 && (forall i :: 0 <= i < j ==> sol[i] == g[i]) && sol[j] > g[j]
  }

  /** Every solution that keeps the clues of `sud` is still ahead of the search. */
  ghost predicate Pending(sud: seq<int>, g: seq<int>, c: int)
    requires |g| == 81
  {
    forall sol :: IsSolution(sol) && Extends(sol, sud) ==> Ahead(sol, g, c)
  }

  /** The working grid `g` keeps the clues of `sud`, and holds blanks and digits. */
  ghost predicate Working(sud: seq<int>, fixed: seq<bool>, g: seq<int>)
  {
    && |sud| == 81 && |fixed| == 81 && |g| == 81
    && (forall i :: 0 <= i < 81 ==> fixed[i] == (sud[i] > 0))
    && (forall i :: 0 <= i < 81 && fixed[i] ==> g[i] == sud[i])
    && InDigits(g)
  }

  /**
   * The state at the head of the search loop with the cursor on cell `c`:
   * a cell that is not a clue; those before it are filled and those after it
   * are blank; the grid with the cursor cell cleared is valid; and every
   * solution is still ahead.
   */
  ghost predicate Cursor(sud: seq<int>, fixed: seq<bool>, g: seq<int>, c: int)
  {
    && Working(sud, fixed, g) && 0 <= c < 81 && !fixed[c]
    && (forall i :: 0 <= i < c && !fixed[i] ==> g[i] != 0)
    && (forall i :: c < i < 81 && !fixed[i] ==> g[i] == 0)
    && Valid(g[c := 0])
    && Pending(sud, g, c)
  }

  /** The first cell that is not a clue starts the search. */
  lemma CursorStart(sud: seq<int>, fixed: seq<bool>, c: int)
    requires Working(sud, fixed, sud) && Valid(sud) && 0 <= c < 81 && !fixed[c]
    requires forall i :: 0 <= i < c ==> fixed[i]
    ensures Cursor(sud, fixed, sud, c)
  {
    assert sud[c := 0] == sud;
    forall sol | IsSolution(sol) && Extends(sol, sud) ensures Ahead(sol, sud, c) {
      assert sol[c] > sud[c];
    }
  }

  /**
   * The cursor cell went past 9: it is cleared and the cursor moves back to
   * the previous cell `b` that is not a clue. With no such cell (`b == -1`),
   * no solution keeps the clues.
   */
  lemma CursorBack(sud: seq<int>, fixed: seq<bool>, g: seq<int>, c: int, b: int)
    requires Cursor(sud, fixed, g, c) && g[c] == 9 && -1 <= b < c
    requires forall i :: b < i < c ==> fixed[i]
    requires b != -1 ==> !fixed[b]
    ensures b != -1 ==> Cursor(sud, fixed, g[c := 0], b)
    ensures b == -1 ==> forall sol :: IsSolution(sol) ==> !Extends(sol, sud)
  {
    var h := g[c := 0];
    forall sol | IsSolution(sol) && Extends(sol, sud) ensures b != -1 && Ahead(sol, h, b) {
      var j :| 0 <= j <= c && j < 81 && (forall i :: 0 <= i < j ==> sol[i] == g[i]) && sol[j] > g[j];
      assert j <= b;
      assert forall i :: 0 <= i < j ==> sol[i] == h[i];
    }
    if b != -1 {
      assert h[b := 0] == g[c := 0][b := 0];
      ValidClear(g[c := 0], b);
    }
  }

  /**
   * The cursor cell took value `v`, one more than before, and failed the cell
   * check: the cursor stays, and no solution has `v` there.
   */
  lemma CursorRetry(sud: seq<int>, fixed: seq<bool>, g: seq<int>, c: int, v: int)
    requires Cursor(sud, fixed, g, c) && v == g[c] + 1 && v <= 9
    requires !CellValid(g[c := v], c)
    ensures Cursor(sud, fixed, g[c := v], c)
  {
    var h := g[c := v];
    assert h[c := 0] == g[c := 0];
    var p :| IsPeer(c, p) && h[p] == h[c];
    forall sol | IsSolution(sol) && Extends(sol, sud) ensures Ahead(sol, h, c) {
      var j :| 0 <= j <= c && j < 81 && (forall i :: 0 <= i < j ==> sol[i] == g[i]) && sol[j] > g[j];
      assert forall i :: 0 <= i < j ==> sol[i] == h[i];
      if j == c {
        assert sol[p] == h[p];
        assert sol[c] != v;
      }
    }
  }

  /**
   * The cursor cell took value `v` and passed the cell check: the cursor
   * moves on to the next cell `n` that is not a clue, or past the end
   * (`n == 81`), where the grid is complete and valid.
   */
  lemma CursorForward(sud: seq<int>, fixed: seq<bool>, g: seq<int>, c: int, v: int, n: int)
    requires Cursor(sud, fixed, g, c) && v == g[c] + 1 && v <= 9
    requires CellValid(g[c := v], c)
    requires c < n <= 81 && forall i :: c < i < n ==> fixed[i]
    requires n < 81 ==> !fixed[n]
    ensures n < 81 ==> Cursor(sud, fixed, g[c := v], n)
    ensures n == 81 ==> Working(sud, fixed, g[c := v]) && Valid(g[c := v]) && Solved(g[c := v])
  {
    var h := g[c := v];
    assert g[c := 0][c := v] == h;
    ValidFill(g[c := 0], c, v);
    if n < 81 {
      assert h[n := 0] == h;
      forall sol | IsSolution(sol) && Extends(sol, sud) ensures Ahead(sol, h, n) {
        var j :| 0 <= j <= c && j < 81 && (forall i :: 0 <= i < j ==> sol[i] == g[i]) && sol[j] > g[j];
        if j < c || sol[c] > v {
          assert forall i :: 0 <= i < j ==> sol[i] == h[i];
        } else {
          assert forall i :: 0 <= i < n ==> sol[i] == h[i];
          assert sol[n] > h[n];
        }
      }
    }
  }

  // ---------------------------------------------------------------------------
  // Termination: the search state read as an odometer in base 11.

  /** 11 to the power `n`. */
  function Pow11(n: nat): nat
  {
    if n == 0 then 1 else 11 * Pow11(n - 1)
  }

  /** The digits `u` (each 0..10) read as a number in base 11, most significant first. */
  function Num(u: seq<int>): int
  {
    if u == [] then 0 else Num(u[..|u| - 1]) * 11 + u[|u| - 1]
  }

  predicate Odometer(u: seq<int>)
  {
    forall i :: 0 <= i < |u| ==> 0 <= u[i] <= 10
  }

  lemma {:induction false} NumBound(u: seq<int>)
    requires Odometer(u)
    ensures 0 <= Num(u) < Pow11(|u|)
  {
    if u != [] {
      NumBound(u[..|u| - 1]);
    }
  }

  /** Raising the first digit where two readings differ raises the number, whatever follows. */
  lemma {:induction false} NumIncrease(u: seq<int>, v: seq<int>, k: int)
    requires |u| == |v| && Odometer(u) && Odometer(v) && 0 <= k < |u|
    requires u[..k] == v[..k] && u[k] < v[k]
    ensures Num(u) < Num(v)
  {
    var n := |u| - 1;
    if k == n {
      assert u[..n] == v[..n];
    } else {
      assert u[..n][..k] == u[..k] && v[..n][..k] == v[..k];
      NumIncrease(u[..n], v[..n], k);
    }
  }

  /**
   * The odometer reading of the search: a clue reads 0, a cell at or before
   * the cursor `cur` reads its value, and one after it reads 10.
   */
  function Units(g: seq<int>, fixed: seq<bool>, cur: int): (u: seq<int>)
    requires |g| == 81 && |fixed| == 81
    ensures |u| == 81
  {
    seq(81, i requires 0 <= i < 81 => if fixed[i] then 0 else if i <= cur then g[i] else 10)
  }

  /**
   * Each turn of the search loop raises the odometer reading: cells before
   * the cursor `c` keep their reading and the cursor cell's reading rises.
   */
  lemma UnitsIncrease(g: seq<int>, h: seq<int>, fixed: seq<bool>, c: int, cur: int)
    requires |g| == 81 && |h| == 81 && |fixed| == 81 && InDigits(g) && InDigits(h)
    requires 0 <= c < 81 && !fixed[c] && -1 <= cur && (forall i :: cur < i < c ==> fixed[i])
    requires forall i :: 0 <= i < c ==> h[i] == g[i]
    requires if cur >= c then h[c] > g[c] else g[c] < 10
    ensures Odometer(Units(g, fixed, c)) && Odometer(Units(h, fixed, cur))
    ensures Num(Units(g, fixed, c)) < Num(Units(h, fixed, cur))
  {
    var u, v := Units(g, fixed, c), Units(h, fixed, cur);
    assert u[..c] == v[..c];
    NumIncrease(u, v, c);
  }

  /** The odometer reading of a grid of blanks and digits is below 11 to the 81st. */
  lemma UnitsBound(g: seq<int>, fixed: seq<bool>, cur: int)
    requires |g| == 81 && |fixed| == 81 && InDigits(g)
    ensures 0 <= Num(Units(g, fixed, cur)) < Pow11(81)
  {
    var u := Units(g, fixed, cur);
    assert forall i :: 0 <= i < 81 ==> 0 <= u[i] <= 10;
    NumBound(u);
  }

  // ---------------------------------------------------------------------------
  // The solver.

  /**
   * What `sudSolve` reports. `Found` carries the grid it prints and its
   * complaints ("not valid", "not solved"), a failure exit when there is
   * one; `NotFound` carries the original grid, printed as unsolvable.
   */
  datatype Report =
    | Found(grid: seq<int>, notValid: bool, notSolved: bool)
    | NotFound(grid: seq<int>)

  /** A fresh copy of the grid (`sudCopy`, `clone`, the value copy in Go). */
  method Copy(sud: array<int>) returns (cp: array<int>)
    ensures fresh(cp) && cp[..] == sud[..]
  {
    cp := new int[sud.Length];
    for i := 0 to sud.Length
      invariant cp[..i] == sud[..i]
    {
      cp[i] := sud[i];
    }
  }

  /**
   * The state of the search loop once the input was found valid: at a
   * cursor cell (`cur`), or past the end with a complete valid grid
   * (`found`), or before the start with no solution left.
   */
  ghost predicate Search(s: seq<int>, fixed: seq<bool>, g: seq<int>, row: int, col: int, cur: int, found: bool)
  {
    && Working(s, fixed, g) && Valid(s) && -1 <= cur <= 81
    && (row != 9 ==> 0 <= row < 9 && 0 <= col < 9 && cur == At(row, col) && !found && Cursor(s, fixed, g, cur))
    && (row == 9 && found ==> Valid(g) && Solved(g))
    && (row == 9 && !found ==> forall sol :: IsSolution(sol) ==> !Extends(sol, s))
  }

  /**
   * One pass of the search loop of `sudSolve`: raise the cursor cell; past 9
   * clear it and step back, else keep it and step forward when it passes the
   * cell check. The odometer reading of the search rises.
   */
  method Turn(sudCP: array<int>, fixed: seq<bool>, row0: int, col0: int, ghost s: seq<int>)
    returns (row: int, col: int, forward: bool, ghost cur: int)
    requires sudCP.Length == 81 && row0 != 9 && Search(s, fixed, sudCP[..], row0, col0, At(row0, col0), false)
    modifies sudCP
    ensures Search(s, fixed, sudCP[..], row, col, cur, forward && row == 9)
    ensures Num(Units(old(sudCP[..]), fixed, At(row0, col0))) < Num(Units(sudCP[..], fixed, cur))
  {
    ghost var g := sudCP[..];
    ghost var c := At(row0, col0);
    var val := sudCP[At(row0, col0)];
    val := val + 1;
    if val > 9 {
      sudCP[At(row0, col0)] := 0;
      row, col := Step(fixed, row0, col0, -1);
      forward := false;
      cur := if row == 9 then -1 else At(row, col);
      CursorBack(s, fixed, g, c, cur);
      UnitsIncrease(g, sudCP[..], fixed, c, cur);
      return;
    }
    sudCP[At(row0, col0)] := val;
    var ok := CellIsValid(sudCP, row0, col0);
    if ok {
      row, col := Step(fixed, row0, col0, 1);
      forward := true;
      cur := if row == 9 then 81 else At(row, col);
      CursorForward(s, fixed, g, c, val, cur);
    } else {
      row, col, forward, cur := row0, col0, false, c;
      CursorRetry(s, fixed, g, c, val);
    }
    UnitsIncrease(g, sudCP[..], fixed, c, cur);
  }

  /**
   * The backtracking search on a copy of the grid, leaving the caller's grid
   * alone (`sudSolve`). An invalid input is reported as found with the
   * complaint "not valid"; otherwise the report is a complete valid grid
   * that keeps every clue, or "not found" exactly when no solution keeps the
   * clues.
   */
  method Solve(sud: array<int>) returns (report: Report)
    requires sud.Length == 81 && InDigits(sud[..])
    ensures report.Found? && !report.notValid && !report.notSolved ==>
              IsSolution(report.grid) && Extends(report.grid, sud[..])
    ensures report.Found? ==> (report.notValid || report.notSolved <==> !Valid(sud[..]))
    ensures report.Found? && report.notValid ==> report.grid == sud[..] && report.notSolved == !Solved(sud[..])
    ensures report.NotFound? ==>
              && report.grid == sud[..] && Valid(sud[..])
              && forall sol :: IsSolution(sol) ==> !Extends(sol, sud[..])
  {
    var sudCP := Copy(sud);
    var fixed := GetFixed(sudCP);
    // Java and Go start from column -1; Rust passes `-1_isize as usize`, which `sud_step` casts back.
    CastRoundTrip(-1);
    var row, col := Step(fixed, 0, AsIsize(AsUsize(-1)), 1);
    var valid := IsValid(sudCP);
    if !valid {
      row := 9;
    }
    var found := row == 9;
    ghost var s := sud[..];
    ghost var cur := if row == 9 then 81 else At(row, col);
    if row != 9 {
      CursorStart(s, fixed, At(row, col));
    }
    while row != 9
      invariant sudCP.Length == 81 && |fixed| == 81
      invariant !valid ==> row == 9 && found && sudCP[..] == s
      invariant valid ==> Search(s, fixed, sudCP[..], row, col, cur, found)
      decreases Pow11(81) - Num(Units(sudCP[..], fixed, cur))
    {
      UnitsBound(sudCP[..], fixed, cur);
      var forward;
      row, col, forward, cur := Turn(sudCP, fixed, row, col, s);
      if forward && row == 9 {
        found := true;
      }
      UnitsBound(sudCP[..], fixed, cur);
    }
    if found {
      var v := IsValid(sudCP);
      var solved := IsSolved(sudCP);
      if v && solved {
        ValidSolvedIsSolution(sudCP[..]);
      }
      report := Found(sudCP[..], !v, !solved);
    } else {
      report := NotFound(sud[..]);
    }
  }
}
