/** The board as the puzzle service sends it (a JSON array of rows of numbers) and the
    read-only mask the component derives from it when a puzzle is captured. */
module Grids {

  /** Every row is as long as the first one. */
  predicate IsRectangular(g: seq<seq<int>>)
  {
    forall i :: 0 <= i < |g| ==> |g[i]| == |g[0]|
  }

  /** A board that a two-dimensional array can hold. */
  type Grid = g: seq<seq<int>> | IsRectangular(g) witness []

  /** Number of columns; an empty board has none. */
  function Width(g: Grid): nat
  {
    if |g| == 0 then 0 else |g[0]|
  }

  /** The read-only flags of one row: a cell is locked exactly when the puzzle filled it. */
  function RowMask(row: seq<int>): (m: seq<bool>)
    ensures |m| == |row|
    ensures forall j :: 0 <= j < |row| ==> m[j] == (row[j] != 0)
  {
    if row == [] then [] else [row[0] != 0] + RowMask(row[1..])
  }

  /** The read-only mask of a fetched board, row by row (the nested `map` in `getBoard`). */
  function ReadOnlyMask(g: seq<seq<int>>): (m: seq<seq<bool>>)
    ensures |m| == |g|
    ensures forall i :: 0 <= i < |g| ==> |m[i]| == |g[i]|
    ensures forall i, j :: 0 <= i < |g| && 0 <= j < |g[i]| ==> m[i][j] == (g[i][j] != 0)
  {
    if g == [] then [] else [RowMask(g[0])] + ReadOnlyMask(g[1..])
  }

  /** Number of filled (non-zero) cells in a row. */
  function FilledInRow(row: seq<int>): nat
  {
    if row == [] then 0 else (if row[0] != 0 then 1 else 0) + FilledInRow(row[1..])
  }

  /** Number of filled cells on a board. */
  function Filled(g: seq<seq<int>>): nat
  {
    if g == [] then 0 else FilledInRow(g[0]) + Filled(g[1..])
  }

  /** Number of locked flags in a row of the mask. */
  function LockedInRow(row: seq<bool>): nat
  {
    if row == [] then 0 else (if row[0] then 1 else 0) + LockedInRow(row[1..])
  }

  /** Number of locked cells in a mask. */
  function Locked(m: seq<seq<bool>>): nat
  {
    if m == [] then 0 else LockedInRow(m[0]) + Locked(m[1..])
  }

  lemma {:induction false} RowMaskLocksFilled(row: seq<int>)
    ensures LockedInRow(RowMask(row)) == FilledInRow(row)
  {
    if row != [] {
      RowMaskLocksFilled(row[1..]);
    }
  }

  /** The mask locks exactly as many cells as the puzzle fills: a puzzle with 30 clues has
      30 read-only cells, an all-zero board none, a full board all of them. */
  lemma {:induction false} MaskLocksFilledCells(g: seq<seq<int>>)
    ensures Locked(ReadOnlyMask(g)) == Filled(g)
  {
    if g != [] {
      RowMaskLocksFilled(g[0]);
      MaskLocksFilledCells(g[1..]);
    }
  }

  /** Number of cells on a board. */
  function Cells(g: seq<seq<int>>): nat
  {
    if g == [] then 0 else |g[0]| + Cells(g[1..])
  }

  /** The two edge cases of the mask: it locks no cell exactly when the fetched board is all
      zeros, and every cell exactly when the board has no zero. */
  lemma MaskEdgeCases(g: seq<seq<int>>)
    ensures Locked(ReadOnlyMask(g)) == 0 <==>
              forall i, j :: 0 <= i < |g| && 0 <= j < |g[i]| ==> g[i][j] == 0
    ensures Locked(ReadOnlyMask(g)) == Cells(g) <==>
              forall i, j :: 0 <= i < |g| && 0 <= j < |g[i]| ==> g[i][j] != 0
  {
    MaskLocksFilledCells(g);
    FilledAtMostCells(g);
  }

  lemma {:induction false} FilledAtMostCells(g: seq<seq<int>>)
    ensures Filled(g) <= Cells(g)
    ensures Filled(g) == 0 <==> forall i, j :: 0 <= i < |g| && 0 <= j < |g[i]| ==> g[i][j] == 0
    ensures Filled(g) == Cells(g) <==> forall i, j :: 0 <= i < |g| && 0 <= j < |g[i]| ==> g[i][j] != 0
  {
    if g != [] {
      FilledInRowBounds(g[0]);
      FilledAtMostCells(g[1..]);
      assert forall i, j :: 1 <= i < |g| && 0 <= j < |g[i]| ==> g[i][j] == g[1..][i - 1][j];
    }
  }

  lemma {:induction false} FilledInRowBounds(row: seq<int>)
    ensures FilledInRow(row) <= |row|
    ensures FilledInRow(row) == 0 <==> forall j :: 0 <= j < |row| ==> row[j] == 0
    ensures FilledInRow(row) == |row| <==> forall j :: 0 <= j < |row| ==> row[j] != 0
  {
    if row != [] {
      FilledInRowBounds(row[1..]);
      assert forall j :: 1 <= j < |row| ==> row[j] == row[1..][j - 1];
    }
  }
}
