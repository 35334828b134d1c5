/**
 Mine placement, building the field and resetting it. The random draw of the
 game (a cell becomes a mine when `Math.random() > 0.85`) is an input here:
 `draws[r][c]` is the outcome of that draw for the cell at row r, column c.
 */
module Placement {
  import opened Grid
  import opened Counting

  /** `draws` holds one outcome per cell of a rowCount x columnCount field. */
  predicate Fits(draws: seq<seq<bool>>, rowCount: nat, columnCount: nat) {
    |draws| == rowCount && forall r :: 0 <= r < |draws| ==> |draws[r]| == columnCount
  }

  /** Marks the cell as a mine when the draw says so; a cell that already is
      a mine stays one, and nothing else about the cell changes. */
  function InitCellState(cell: Cell, draw: bool): (c: Cell)
    ensures c.isMine <==> cell.isMine || draw
    ensures c.touchingMines == cell.touchingMines && c.checked == cell.checked
  {
    if draw then cell.(isMine := true) else cell
  }

  /** The per-cell work of a reset: uncheck, clear the mine flag and the
      count, then draw again. */
  function ResetCell(cell: Cell, draw: bool): (c: Cell)
    ensures c == Cell(draw, 0, false)
  {
    InitCellState(cell.(checked := false, isMine := false, touchingMines := 0), draw)
  }

  /** Every cell of `f` reset against its draw. */
  function ResetCells(f: Field, draws: seq<seq<bool>>): (g: Field)
    requires f.Valid() && Fits(draws, f.rowCount, f.columnCount)
    ensures g.Valid() && g.rowCount == f.rowCount && g.columnCount == f.columnCount
    ensures forall p :: g.InBounds(p) ==> g.At(p) == Cell(draws[p.row][p.col], 0, false)
  {
    Field(f.rowCount, f.columnCount,
      seq(f.rowCount, r requires 0 <= r < f.rowCount =>
        seq(f.columnCount, c requires 0 <= c < f.columnCount => ResetCell(f.rows[r][c], draws[r][c]))))
  }

  /** The field as the game first builds it: fresh cells, a draw for each,
      then the counting pass. No checkbox is checked, the mines are exactly
      the positive draws, and the counts are consistent with them. */
  method NewField(rowCount: nat, columnCount: nat, draws: seq<seq<bool>>) returns (f: Field)
    requires Fits(draws, rowCount, columnCount)
    ensures f.Valid() && f.rowCount == rowCount && f.columnCount == columnCount
    ensures forall p :: f.InBounds(p) ==> !f.At(p).checked && f.At(p).isMine == draws[p.row][p.col]
    ensures CountsConsistent(f)
  {
    var placed := Field(rowCount, columnCount,
      seq(rowCount, r requires 0 <= r < rowCount =>
        seq(columnCount, c requires 0 <= c < columnCount => InitCellState(FreshCell, draws[r][c]))));
    f := SetCellsIfTouchingMines(placed);
  }

  /** The reset button: all checkboxes cleared, mines drawn again and the
      counts recomputed. When the reset returns, the field is determined by
      its shape and the draws alone. */
  method ResetAll(f: Field, draws: seq<seq<bool>>) returns (g: Field)
    requires f.Valid() && Fits(draws, f.rowCount, f.columnCount)
    ensures g.Valid() && g.rowCount == f.rowCount && g.columnCount == f.columnCount
    ensures forall p :: g.InBounds(p) ==> !g.At(p).checked && g.At(p).isMine == draws[p.row][p.col]
    ensures CountsConsistent(g)
  {
    var cleared := ResetCells(f, draws);
    g := SetCellsIfTouchingMines(cleared);
  }
}
